/**
  The key orders the reports sort by: text ascending, a nullable key
  ascending or descending with the null placement PostgreSQL applies, and the
  fixed rank of the vulnerability levels.
*/
module Orderings {
  import opened Wrappers
  import opened Sorting

  /**
    Text ascending, compared character by character on code points (the "C"
    collation); a proper prefix comes first.
  */
  predicate TextLe(a: string, b: string) {
    if a == [] then true
    else if b == [] then false
    else if a[0] != b[0] then a[0] < b[0]
    else TextLe(a[1..], b[1..])
  }

  lemma {:induction false} TextLeTotal(a: string, b: string)
    ensures TextLe(a, b) || TextLe(b, a)
  {
    if a != [] && b != [] && a[0] == b[0] {
      TextLeTotal(a[1..], b[1..]);
    }
  }

  lemma {:induction false} TextLeReflexive(a: string)
    ensures TextLe(a, a)
  {
    if a != [] {
      TextLeReflexive(a[1..]);
    }
  }

  lemma {:induction false} TextLeTransitive(a: string, b: string, c: string)
    requires TextLe(a, b) && TextLe(b, c)
    ensures TextLe(a, c)
  {
    if a != [] && b != [] && c != [] && a[0] == b[0] && b[0] == c[0] {
      TextLeTransitive(a[1..], b[1..], c[1..]);
    }
  }

  lemma {:induction false} TextLeAntisymmetric(a: string, b: string)
    requires TextLe(a, b) && TextLe(b, a)
    ensures a == b
  {
    if a != [] && b != [] {
      TextLeAntisymmetric(a[1..], b[1..]);
      assert a == [a[0]] + a[1..] && b == [b[0]] + b[1..];
    }
  }

  lemma TextLePreorder()
    ensures TotalPreorder(TextLe)
  {
    forall a, b ensures TextLe(a, b) || TextLe(b, a) {
      TextLeTotal(a, b);
    }
    forall a, b, c | TextLe(a, b) && TextLe(b, c) ensures TextLe(a, c) {
      TextLeTransitive(a, b, c);
    }
  }

  /** `order by x, y` on two text columns. */
  predicate TextPairLe(a: (string, string), b: (string, string)) {
    (TextLe(a.0, b.0) && a.0 != b.0) || (a.0 == b.0 && TextLe(a.1, b.1))
  }

  lemma TextPairLePreorder()
    ensures TotalPreorder(TextPairLe)
  {
    forall a, b ensures TextPairLe(a, b) || TextPairLe(b, a) {
      TextLeTotal(a.0, b.0);
      TextLeTotal(a.1, b.1);
    }
    forall a, b, c | TextPairLe(a, b) && TextPairLe(b, c) ensures TextPairLe(a, c) {
      if a.0 == b.0 && b.0 == c.0 {
        TextLeTransitive(a.1, b.1, c.1);
      } else {
        TextLeReflexive(a.0);
        TextLeReflexive(b.0);
        TextLeTransitive(a.0, b.0, c.0);
        if a.0 == c.0 {
          TextLeAntisymmetric(a.0, b.0);
        }
      }
    }
  }

  /** Two different pairs are never tied. */
  lemma TextPairLeStrict(a: (string, string), b: (string, string))
    requires TextPairLe(a, b) && a != b
    ensures !TextPairLe(b, a)
  {
    if a.0 == b.0 {
      if TextLe(b.1, a.1) {
        TextLeAntisymmetric(a.1, b.1);
      }
    } else if TextLe(b.0, a.0) {
      TextLeAntisymmetric(a.0, b.0);
    }
  }

  /** `order by x` on a number that is never null. */
  predicate Ascending(a: int, b: int) {
    a <= b
  }

  /** `order by x desc` on a number that is never null. */
  predicate Descending(a: int, b: int) {
    a >= b
  }

  lemma NumberOrdersPreorder()
    ensures TotalPreorder(Ascending)
    ensures TotalPreorder(Descending)
  {
  }

  /** `order by x desc nulls last` on a nullable number. */
  predicate DescNullsLast(a: Option<int>, b: Option<int>) {
    match (a, b)
    case (Some(x), Some(y)) => x >= y
    case (Some(_), None) => true
    case (None, Some(_)) => false
    case (None, None) => true
  }

  /** `order by x` on a nullable number: PostgreSQL puts nulls last in ascending order. */
  predicate AscNullsLast(a: Option<int>, b: Option<int>) {
    match (a, b)
    case (Some(x), Some(y)) => x <= y
    case (Some(_), None) => true
    case (None, Some(_)) => false
    case (None, None) => true
  }

  lemma NullableOrdersPreorder()
    ensures TotalPreorder(DescNullsLast)
    ensures TotalPreorder(AscNullsLast)
  {
  }

  /**
    The `case vulnerabilite when 'faible' then 1 when 'moyenne' then 2 when
    'elevee' then 3 end` sort key: any other label has no rank (null).
  */
  function VulnerabilityRank(v: string): (rank: Option<int>)
    ensures rank.Some? <==> v in {"faible", "moyenne", "elevee"}
  {
    if v == "faible" then Some(1)
    else if v == "moyenne" then Some(2)
    else if v == "elevee" then Some(3)
    else None
  }

  /** The vulnerability order: faible, moyenne, elevee, then any other label. */
  predicate VulnerabilityLe(a: string, b: string) {
    AscNullsLast(VulnerabilityRank(a), VulnerabilityRank(b))
  }

  /**
    The three known levels come in the order faible < moyenne < elevee, which is
    not their alphabetical order, and every known level precedes an unknown one.
  */
  lemma VulnerabilityOrder(v: string)
    ensures VulnerabilityLe("faible", "moyenne") && !VulnerabilityLe("moyenne", "faible")
    ensures VulnerabilityLe("moyenne", "elevee") && !VulnerabilityLe("elevee", "moyenne")
    ensures TextLe("elevee", "faible") && TextLe("faible", "moyenne")
    ensures v !in {"faible", "moyenne", "elevee"} ==>
      VulnerabilityLe("elevee", v) && !VulnerabilityLe(v, "faible")
  {
  }
}
