/** SQL values as the engine holds them at run time, with the two comparisons it uses on them:
    equality, which is total, and ordering, which raises on values of different kinds. */
module Values {

  datatype Option<+T> = None | Some(value: T)

  datatype Value = Null | Bool(b: bool) | Int(i: int) | Float(f: real) | Text(s: string)

  /** Booleans, integers and floats compare with each other as numbers. */
  predicate IsNumeric(v: Value) {
    v.Bool? || v.Int? || v.Float?
  }

  function Number(v: Value): real
    requires IsNumeric(v)
  {
    match v
    case Bool(b) => if b then 1.0 else 0.0
    case Int(i) => i as real
    case Float(f) => f
  }

  /** `a < b` is defined (does not raise). */
  predicate Comparable(a: Value, b: Value) {
    (IsNumeric(a) && IsNumeric(b)) || (a.Text? && b.Text?)
  }

  /** Equality never raises: values of different kinds are just different, and NULL equals NULL. */
  predicate Same(a: Value, b: Value) {
    if IsNumeric(a) && IsNumeric(b) then Number(a) == Number(b) else a == b
  }

  /** Code-point order of strings. */
  predicate TextLess(a: string, b: string) {
    b != [] && (a == [] || a[0] < b[0] || (a[0] == b[0] && TextLess(a[1..], b[1..])))
  }

  /** The order of the engine on comparable values, completed to a total one on all values
      (NULL, then numbers, then texts) so that specifications may be total. Code that may meet
      incomparable values checks `Comparable` first. */
  predicate Less(a: Value, b: Value) {
    match (a, b)
    case (Text(s), Text(t)) => TextLess(s, t)
    case (Text(_), _) => false
    case (_, Text(_)) => true
    case (Null, _) => b != Null
    case (_, Null) => false
    case (_, _) => Number(a) < Number(b)
  }

  // ---------------------------------------------------------------- what the order means

  /** The texts are the same up to `k`, where `a` ends or has the smaller character. */
  predicate SmallerAt(a: string, b: string, k: nat) {
    k <= |a| && k < |b| && a[..k] == b[..k] && (k == |a| || a[k] < b[k])
  }

  /** A number below another, or a text that is a proper prefix of the other or has the smaller first
      differing character. */
  ghost predicate Smaller(a: Value, b: Value) {
    || (IsNumeric(a) && IsNumeric(b) && Number(a) < Number(b))
    || (a.Text? && b.Text? && exists k: nat :: SmallerAt(a.s, b.s, k))
  }

  lemma SamePrefix<T>(a: seq<T>, b: seq<T>, k: nat, i: nat)
    requires i < k <= |a| && k <= |b| && a[..k] == b[..k]
    ensures a[i] == b[i]
  {
    assert a[..k][i] == b[..k][i];
  }

  lemma SmallerAtNext(a: string, b: string, k: nat)
    requires a != [] && b != [] && a[0] == b[0]
    ensures SmallerAt(a[1..], b[1..], k) <==> SmallerAt(a, b, k + 1)
  {
    if k < |a| && k < |b| - 1 {
      assert a[..k + 1] == [a[0]] + a[1..][..k] && b[..k + 1] == [b[0]] + b[1..][..k];
    }
  }

  lemma {:induction false} TextLessIff(a: string, b: string)
    ensures TextLess(a, b) <==> exists k: nat :: SmallerAt(a, b, k)
  {
    if a != [] && b != [] && a[0] == b[0] {
      TextLessIff(a[1..], b[1..]);
      if k: nat :| SmallerAt(a[1..], b[1..], k) {
        SmallerAtNext(a, b, k);
      }
      if k: nat :| SmallerAt(a, b, k) {
        assert k > 0;
        SmallerAtNext(a, b, k - 1);
      }
    } else {
      if k: nat :| SmallerAt(a, b, k) && k > 0 {
        SamePrefix(a, b, k, 0);
      }
      if TextLess(a, b) {
        assert SmallerAt(a, b, 0);
      }
    }
  }

  /** On comparable values the order is that of numbers and of texts. */
  lemma LessMeans(a: Value, b: Value)
    requires Comparable(a, b)
    ensures Less(a, b) <==> Smaller(a, b)
  {
    if a.Text? {
      TextLessIff(a.s, b.s);
    }
  }

  lemma {:induction false} TextTrichotomy(a: string, b: string)
    ensures TextLess(a, b) || TextLess(b, a) || a == b
    ensures !(TextLess(a, b) && TextLess(b, a))
    ensures !TextLess(a, a)
  {
    if a != [] {
      TextTrichotomy(a[1..], a[1..]);
    }
    if a != [] && b != [] && a[0] == b[0] {
      TextTrichotomy(a[1..], b[1..]);
      assert a[1..] == b[1..] ==> a == [a[0]] + a[1..] == b;
    }
  }

  lemma {:induction false} TextTransitive(a: string, b: string, c: string)
    requires TextLess(a, b) && TextLess(b, c)
    ensures TextLess(a, c)
  {
    if a != [] && a[0] == b[0] && b[0] == c[0] {
      TextTransitive(a[1..], b[1..], c[1..]);
    }
  }

  lemma LessTransitive(a: Value, b: Value, c: Value)
    requires Less(a, b) && Less(b, c)
    ensures Less(a, c)
  {
    if a.Text? && b.Text? && c.Text? {
      TextTransitive(a.s, b.s, c.s);
    }
  }

  /** The order is total up to `Same`: exactly one of less, same, greater. */
  lemma LessTrichotomy(a: Value, b: Value)
    ensures Less(a, b) || Less(b, a) || Same(a, b)
    ensures !(Less(a, b) && Less(b, a))
    ensures Same(a, b) ==> !Less(a, b) && !Less(b, a)
  {
    if a.Text? && b.Text? {
      TextTrichotomy(a.s, b.s);
    }
  }

  lemma SameSubstitutes(a: Value, b: Value, c: Value)
    requires Same(a, b)
    ensures Less(a, c) <==> Less(b, c)
    ensures Less(c, a) <==> Less(c, b)
    ensures Same(a, c) <==> Same(b, c)
  {
  }

  /** The two facts about `Less` that the sorted-sequence arguments use. */
  lemma LessIsWeakOrder()
    ensures forall a, b {:trigger Less(a, b)} :: Less(a, b) ==> !Less(b, a)
    ensures forall a, b, c {:trigger Less(a, b), Less(b, c)} :: Less(a, b) && Less(b, c) ==> Less(a, c)
    ensures forall a, b, c {:trigger Less(a, b), Less(a, c)} {:trigger Less(b, a), Less(c, a)}
              :: !Less(a, b) && !Less(b, c) ==> !Less(a, c)
  {
    forall a, b | Less(a, b) ensures !Less(b, a) {
      LessTrichotomy(a, b);
    }
    forall a, b, c | Less(a, b) && Less(b, c) ensures Less(a, c) {
      LessTransitive(a, b, c);
    }
    forall a, b, c | !Less(a, b) && !Less(b, c) ensures !Less(a, c) {
      LessNegTransitive(a, b, c);
    }
  }

  lemma LessNegTransitive(a: Value, b: Value, c: Value)
    requires !Less(a, b) && !Less(b, c)
    ensures !Less(a, c)
  {
    if Less(a, c) {
      LessTrichotomy(a, b);
      LessTrichotomy(b, c);
      if Less(b, a) {
        LessTransitive(b, a, c);
      } else {
        SameSubstitutes(a, b, c);
      }
    }
  }
}
