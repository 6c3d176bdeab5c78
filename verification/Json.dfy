/** JSON values as serde_json holds them: an object is a map from member names to
    values, and a number is the token serde_json prints for it. */
module Json {

  datatype Option<+T> = None | Some(value: T)
  {
    predicate IsFailure() { None? }

    function PropagateFailure<U>(): Option<U>
      requires None?
    {
      None
    }

    function Extract(): T
      requires Some?
    {
      value
    }
  }

  predicate IsDigit(c: char) {
    '0' <= c <= '9'
  }

  predicate AllDigits(s: string) {
    forall i | 0 <= i < |s| :: IsDigit(s[i])
  }

  datatype Sign = Unsigned | Plus | Minus

  datatype Exponent = Exponent(upper: bool, sign: Sign, digits: string)

  /** A number token, section 6 of RFC 8259. */
  datatype NumberToken = NumberToken(
    negative: bool, whole: string, fraction: Option<string>, exponent: Option<Exponent>)
  {
    predicate WellFormed() {
      && whole != "" && AllDigits(whole)
      && (whole[0] == '0' ==> |whole| == 1)
      && (fraction.Some? ==> fraction.value != "" && AllDigits(fraction.value))
      && (exponent.Some? ==> exponent.value.digits != "" && AllDigits(exponent.value.digits))
    }
  }

  type Number = n: NumberToken | n.WellFormed()
    witness NumberToken(false, "0", None, None)

  datatype Json =
    | Null
    | Bool(b: bool)
    | Num(n: Number)
    | Str(s: string)
    | Arr(items: seq<Json>)
    | Obj(members: map<string, Json>)

  // ---- the text of a number token ----

  function SignText(sign: Sign): string {
    match sign
    case Unsigned => ""
    case Plus => "+"
    case Minus => "-"
  }

  function FractionText(f: Option<string>): string {
    if f.None? then "" else "." + f.value
  }

  function ExponentText(e: Option<Exponent>): string {
    if e.None? then ""
    else (if e.value.upper then "E" else "e") + SignText(e.value.sign) + e.value.digits
  }

  function MantissaText(n: NumberToken): string {
    (if n.negative then "-" else "") + n.whole + FractionText(n.fraction)
  }

  function NumberText(n: NumberToken): string {
    MantissaText(n) + ExponentText(n.exponent)
  }

  lemma NumberExample()
    ensures NumberText(NumberToken(true, "1", Some("50"), Some(Exponent(false, Plus, "3")))) == "-1.50e+3"
    ensures NumberText(NumberToken(false, "20", None, Some(Exponent(true, Minus, "1")))) == "20E-1"
  {
  }

  // ---- member names in the order of a BTreeMap ----

  /** Lexicographic order by scalar value, which is the byte order of UTF-8. */
  predicate Leq(a: string, b: string) {
    if a == "" then true
    else if b == "" then false
    else a[0] < b[0] || (a[0] == b[0] && Leq(a[1..], b[1..]))
  }

  lemma {:induction false} LeqTotal(a: string, b: string)
    ensures Leq(a, b) || Leq(b, a)
  {
    if a != "" && b != "" && a[0] == b[0] { LeqTotal(a[1..], b[1..]); }
  }

  lemma {:induction false} LeqAntisymmetric(a: string, b: string)
    requires Leq(a, b) && Leq(b, a)
    ensures a == b
  {
    if a != "" {
      LeqAntisymmetric(a[1..], b[1..]);
      assert a == [a[0]] + a[1..] && b == [b[0]] + b[1..];
    }
  }

  lemma {:induction false} LeqTransitive(a: string, b: string, c: string)
    requires Leq(a, b) && Leq(b, c)
    ensures Leq(a, c)
  {
    if a != "" && a[0] == b[0] == c[0] { LeqTransitive(a[1..], b[1..], c[1..]); }
  }

  ghost predicate SmallerAt(a: string, b: string, i: nat) {
    i < |a| && i < |b| && a[..i] == b[..i] && a[i] < b[i]
  }

  /** A start of the other string, or smaller at the first place where they differ. */
  ghost predicate Before(a: string, b: string) {
    a <= b || exists i: nat :: SmallerAt(a, b, i)
  }

  lemma SmallerLater(a: string, b: string, i: nat)
    requires a != "" && b != "" && a[0] == b[0]
    ensures SmallerAt(a, b, i + 1) <==> SmallerAt(a[1..], b[1..], i)
  {
    if i < |a| - 1 && i < |b| - 1 {
      assert a[..i + 1] == [a[0]] + a[1..][..i] && b[..i + 1] == [b[0]] + b[1..][..i];
      assert a[..i + 1][1..] == a[1..][..i] && b[..i + 1][1..] == b[1..][..i];
    }
  }

  lemma BeforeLater(a: string, b: string)
    requires a != "" && b != "" && a[0] == b[0]
    ensures Before(a, b) <==> Before(a[1..], b[1..])
  {
    hide SmallerAt;
    assert a == [a[0]] + a[1..] && b == [b[0]] + b[1..];
    if i: nat :| SmallerAt(a[1..], b[1..], i) { SmallerLater(a, b, i); }
    if i: nat :| SmallerAt(a, b, i) {
      SameHead(a, b, i);
      SmallerLater(a, b, i - 1);
    }
  }

  lemma SameHead(a: string, b: string, i: nat)
    requires SmallerAt(a, b, i)
    ensures if i == 0 then a[0] < b[0] else a[0] == b[0]
  {
    if i > 0 { assert a[..i][0] == b[..i][0]; }
  }

  lemma BeforeAtOnce(a: string, b: string)
    requires a != "" && b != "" && a[0] != b[0]
    ensures Before(a, b) <==> a[0] < b[0]
  {
    if i: nat :| SmallerAt(a, b, i) { SameHead(a, b, i); }
    if a[0] < b[0] { assert SmallerAt(a, b, 0); }
  }

  lemma {:induction false} LeqIsBefore(a: string, b: string)
    ensures Leq(a, b) <==> Before(a, b)
  {
    hide SmallerAt;
    if a != "" && b != "" {
      if a[0] == b[0] {
        LeqIsBefore(a[1..], b[1..]);
        BeforeLater(a, b);
      } else {
        BeforeAtOnce(a, b);
      }
    } else if a != "" {
      if i: nat :| SmallerAt(a, b, i) { NothingSmaller(a, i); }
    }
  }

  lemma NothingSmaller(a: string, i: nat)
    ensures !SmallerAt(a, "", i)
  {
  }

  predicate IsLeast(k: string, keys: set<string>) {
    k in keys && forall other | other in keys :: Leq(k, other)
  }

  lemma {:induction false} LeastExists(keys: set<string>)
    requires keys != {}
    ensures exists k :: IsLeast(k, keys)
  {
    var k :| k in keys;
    if keys == {k} {
      LeqTotal(k, k);
      assert IsLeast(k, keys);
    } else {
      LeastExists(keys - {k});
      var least :| IsLeast(least, keys - {k});
      LeqTotal(k, least);
      LeqTotal(k, k);
      if Leq(k, least) {
        forall other | other in keys ensures Leq(k, other) {
          if other != k { LeqTransitive(k, least, other); }
        }
        assert IsLeast(k, keys);
      } else {
        assert IsLeast(least, keys);
      }
    }
  }

  function Least(keys: set<string>): (k: string)
    requires keys != {}
    ensures IsLeast(k, keys)
  {
    LeastExists(keys);
    assert forall a, b | IsLeast(a, keys) && IsLeast(b, keys) :: a == b by {
      forall a, b | IsLeast(a, keys) && IsLeast(b, keys) ensures a == b {
        LeqAntisymmetric(a, b);
      }
    }
    var k :| k in keys && IsLeast(k, keys);
    k
  }

  ghost predicate Sorted(names: seq<string>) {
    forall i, j | 0 <= i < j < |names| :: names[i] != names[j] && Leq(names[i], names[j])
  }

  ghost predicate Lists(names: seq<string>, keys: set<string>) {
    && (forall i | 0 <= i < |names| :: names[i] in keys)
    && (forall k | k in keys :: k in names)
  }

  /** The names of a BTreeMap with these keys, in iteration order. */
  function SortedKeys(keys: set<string>): (names: seq<string>)
    ensures Sorted(names) && Lists(names, keys)
  {
    if keys == {} then []
    else
      var k := Least(keys);
      [k] + SortedKeys(keys - {k})
  }

  /** Sorting leaves no freedom: any sorted listing of the keys is this one. */
  lemma {:induction false} SortedKeysUnique(names: seq<string>, keys: set<string>)
    requires Sorted(names) && Lists(names, keys)
    ensures names == SortedKeys(keys)
  {
    if names == [] {
      assert keys == {};
    } else {
      assert names[0] in keys;
      var k := Least(keys);
      var j :| 0 <= j < |names| && names[j] == k;
      assert Leq(k, names[0]) && (j != 0 ==> Leq(names[0], k));
      if j != 0 { LeqAntisymmetric(k, names[0]); }
      forall other | other in keys - {k} ensures other in names[1..] {
        var i :| 0 <= i < |names| && names[i] == other;
        assert names[1..][i - 1] == other;
      }
      SortedKeysUnique(names[1..], keys - {k});
      assert names == [names[0]] + names[1..];
    }
  }
}
