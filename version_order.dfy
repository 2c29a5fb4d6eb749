/** The ordering step of `update_terraform_file` (version_restrictor.py:98-103):
    `sorted(versions, key=lambda s: [int(u) for u in s.split(".")])`, falling
    back to `sorted(versions)` when some component is not an integer. */
module VersionOrder {
  import opened Text

  predicate IsDigit(c: char)
  {
    '0' <= c <= '9'
  }

  function DigitValue(c: char): nat
    requires IsDigit(c)
  {
    (c as int) - ('0' as int)
  }

  /** The most digits `int` converts from a string: CPython's default
      `sys.get_int_max_str_digits()`, beyond which it raises ValueError. */
  const MAX_INT_DIGITS := 4300

  /** A component that `int(u)` accepts, taken here as a non-empty run of
      at most `MAX_INT_DIGITS` ASCII digits. */
  predicate IsNumeral(u: string)
  {
    0 < |u| <= MAX_INT_DIGITS && forall i :: 0 <= i < |u| ==> IsDigit(u[i])
  }

  /** The decimal value of a run of digits. */
  function NumeralValue(u: string): nat
    requires forall i :: 0 <= i < |u| ==> IsDigit(u[i])
  {
    if u == [] then 0 else 10 * NumeralValue(u[..|u| - 1]) + DigitValue(u[|u| - 1])
  }

  /** Leading zeros do not change the value, so "1.01" and "1.1" get the
      same key. */
  lemma {:induction false} LeadingZero(u: string)
    requires forall i :: 0 <= i < |u| ==> IsDigit(u[i])
    ensures NumeralValue("0" + u) == NumeralValue(u)
  {
    if u != [] {
      var w := "0" + u;
      assert w[..|w| - 1] == "0" + u[..|u| - 1];
      LeadingZero(u[..|u| - 1]);
    }
  }

  /** Every dot-separated component of `v` parses as an integer. */
  predicate IsNumericVersion(v: string)
  {
    var parts := Split(v, '.');
    forall i :: 0 <= i < |parts| ==> IsNumeral(parts[i])
  }

  /** Python's `sorted` compares keys with `<`; the two orderings the source
      uses are the integer lists of the components and the string itself. */
  datatype Ordering = Numeric | Lexical

  /** `Numeric` when every version has only integer components, as the
      `try` on line 99 succeeds exactly then; `Lexical` otherwise. */
  function OrderingFor(versions: seq<string>): Ordering
  {
    if forall i :: 0 <= i < |versions| ==> IsNumericVersion(versions[i]) then Numeric else Lexical
  }

  /** The comparison key of `v`, as a list of integers: the component values
      for `Numeric`, the code points for `Lexical` (Python compares strings
      code point by code point, as it compares lists element by element).
      `Numeric` is only chosen when every version is numeric. */
  function Key(o: Ordering, v: string): seq<int>
  {
    if o == Numeric && IsNumericVersion(v) then
      var parts := Split(v, '.');
      seq(|parts|, i requires 0 <= i < |parts| => NumeralValue(parts[i]))
    else
      seq(|v|, i requires 0 <= i < |v| => v[i] as int)
  }

  /** Python's `a <= b` on lists: the first difference decides, and a prefix
      comes first. */
  predicate LexLe(a: seq<int>, b: seq<int>)
  {
    a == [] || (b != [] && (a[0] < b[0] || (a[0] == b[0] && LexLe(a[1..], b[1..]))))
  }

  lemma {:induction false} LexLeReflexive(a: seq<int>)
    ensures LexLe(a, a)
  {
    if a != [] {
      LexLeReflexive(a[1..]);
    }
  }

  lemma {:induction false} LexLeTotal(a: seq<int>, b: seq<int>)
    ensures LexLe(a, b) || LexLe(b, a)
  {
    if a != [] && b != [] && a[0] == b[0] {
      LexLeTotal(a[1..], b[1..]);
    }
  }

  lemma {:induction false} LexLeTransitive(a: seq<int>, b: seq<int>, c: seq<int>)
    requires LexLe(a, b) && LexLe(b, c)
    ensures LexLe(a, c)
  {
    if a != [] && a[0] == b[0] && b[0] == c[0] {
      LexLeTransitive(a[1..], b[1..], c[1..]);
    }
  }

  lemma {:induction false} LexLeAntisymmetric(a: seq<int>, b: seq<int>)
    requires LexLe(a, b) && LexLe(b, a)
    ensures a == b
  {
    if a != [] {
      LexLeAntisymmetric(a[1..], b[1..]);
      assert a == [a[0]] + a[1..] && b == [b[0]] + b[1..];
    }
  }

  /** The key function that line 100 or line 103 hands to `sorted`. */
  function SortKey(o: Ordering): string -> seq<int>
  {
    v => Key(o, v)
  }

  /** `a` may precede `b` in a result sorted under `key`. */
  predicate KeyLe(key: string -> seq<int>, a: string, b: string)
  {
    LexLe(key(a), key(b))
  }

  /** Non-decreasing under `key`. */
  ghost predicate SortedBy(key: string -> seq<int>, xs: seq<string>)
  {
    forall i, j :: 0 <= i < j < |xs| ==> KeyLe(key, xs[i], xs[j])
  }

  /** Puts `v` in front of the first element whose key is not smaller, so
      that it stays behind the elements with an equal key that came before
      it in the input. */
  function Insert(key: string -> seq<int>, v: string, xs: seq<string>): (r: seq<string>)
    ensures multiset(r) == multiset(xs) + multiset{v}
    ensures forall x :: x in r ==> x == v || x in xs
  {
    if xs == [] then [v]
    else if KeyLe(key, v, xs[0]) then [v] + xs
    else
      assert xs == [xs[0]] + xs[1..];
      [xs[0]] + Insert(key, v, xs[1..])
  }

  /** Inserting into a sorted list keeps it sorted. */
  lemma {:induction false} InsertSorted(key: string -> seq<int>, v: string, xs: seq<string>)
    requires SortedBy(key, xs)
    ensures SortedBy(key, Insert(key, v, xs))
  {
    if xs == [] {
    } else if KeyLe(key, v, xs[0]) {
      var r := [v] + xs;
      forall i, j | 0 <= i < j < |r|
        ensures KeyLe(key, r[i], r[j])
      {
        if i == 0 && j > 1 {
          LexLeTransitive(key(v), key(xs[0]), key(xs[j - 1]));
        }
      }
    } else {
      var rest := Insert(key, v, xs[1..]);
      var r := [xs[0]] + rest;
      InsertSorted(key, v, xs[1..]);
      LexLeTotal(key(v), key(xs[0]));
      forall i, j | 0 <= i < j < |r|
        ensures KeyLe(key, r[i], r[j])
      {
        if i == 0 {
          var x := r[j];
          assert x in rest;
          if x != v {
            var k :| 0 <= k < |xs| - 1 && xs[1..][k] == x;
            assert xs[k + 1] == x;
          }
        }
      }
    }
  }

  /** `sorted(xs, key=key)`, as a stable insertion sort: the last element is
      inserted first, so that of two elements with an equal key the earlier
      one ends up first. */
  function SortBy(key: string -> seq<int>, xs: seq<string>): (r: seq<string>)
    ensures multiset(r) == multiset(xs)
    ensures SortedBy(key, r)
  {
    if xs == [] then []
    else
      assert xs == [xs[0]] + xs[1..];
      InsertSorted(key, xs[0], SortBy(key, xs[1..]));
      Insert(key, xs[0], SortBy(key, xs[1..]))
  }

  /** Lines 99-103: the numeric order when every component is an integer,
      plain string order otherwise. The result is a permutation of the input
      and is non-decreasing under the chosen key. */
  function SortVersions(versions: seq<string>): (r: seq<string>)
    ensures multiset(r) == multiset(versions)
    ensures |r| == |versions|
    ensures SortedBy(SortKey(OrderingFor(versions)), r)
  {
    var r := SortBy(SortKey(OrderingFor(versions)), versions);
    assert |multiset(r)| == |multiset(versions)|;
    r
  }

  /** The elements of `xs` whose key is `k`, in order. */
  function WithKey(key: string -> seq<int>, k: seq<int>, xs: seq<string>): seq<string>
  {
    if xs == [] then []
    else (if key(xs[0]) == k then [xs[0]] else []) + WithKey(key, k, xs[1..])
  }

  lemma WithKeyCons(key: string -> seq<int>, k: seq<int>, x: string, xs: seq<string>)
    ensures WithKey(key, k, [x] + xs) == (if key(x) == k then [x] else []) + WithKey(key, k, xs)
  {
    assert ([x] + xs)[1..] == xs;
  }

  lemma SwapEmpty(a: seq<string>, b: seq<string>, t: seq<string>)
    requires a == [] || b == []
    ensures a + (b + t) == b + (a + t)
  {
    if a == [] {
      assert [] + (b + t) == b + t && [] + t == t;
    } else {
      assert [] + (a + t) == a + t && [] + t == t;
    }
  }

  /** The step of `InsertStable` where `v` moves past the first element:
      that element's key is smaller, so at most one of the two has key `k`. */
  lemma InsertStablePast(key: string -> seq<int>, k: seq<int>, v: string, xs: seq<string>)
    requires xs != [] && !KeyLe(key, v, xs[0])
    requires WithKey(key, k, Insert(key, v, xs[1..])) == (if key(v) == k then [v] else []) + WithKey(key, k, xs[1..])
    ensures WithKey(key, k, Insert(key, v, xs)) == (if key(v) == k then [v] else []) + WithKey(key, k, xs)
  {
    var x, rest := xs[0], Insert(key, v, xs[1..]);
    var vk: seq<string> := if key(v) == k then [v] else [];
    var xk: seq<string> := if key(x) == k then [x] else [];
    assert Insert(key, v, xs) == [x] + rest;
    WithKeyCons(key, k, x, rest);
    WithKeyCons(key, k, x, xs[1..]);
    assert [x] + xs[1..] == xs;
    if key(v) == k && key(x) == k {
      LexLeReflexive(k);
    }
    SwapEmpty(xk, vk, WithKey(key, k, xs[1..]));
  }

  lemma {:induction false} InsertStable(key: string -> seq<int>, k: seq<int>, v: string, xs: seq<string>)
    ensures WithKey(key, k, Insert(key, v, xs)) == (if key(v) == k then [v] else []) + WithKey(key, k, xs)
  {
    if xs == [] {
      WithKeyCons(key, k, v, []);
    } else if KeyLe(key, v, xs[0]) {
      WithKeyCons(key, k, v, xs);
    } else {
      InsertStable(key, k, v, xs[1..]);
      InsertStablePast(key, k, v, xs);
    }
  }

  /** Stability: versions with equal keys keep their input order, as in
      Python's `sorted`. */
  lemma {:induction false} SortByStable(key: string -> seq<int>, k: seq<int>, xs: seq<string>)
    ensures WithKey(key, k, SortBy(key, xs)) == WithKey(key, k, xs)
  {
    if xs != [] {
      SortByStable(key, k, xs[1..]);
      InsertStable(key, k, xs[0], SortBy(key, xs[1..]));
    }
  }

  /** The key of a two-component numeric version. */
  lemma TwoComponentKey(u: string, w: string)
    requires IsNumeral(u) && IsNumeral(w)
    ensures IsNumericVersion(u + "." + w)
    ensures Key(Numeric, u + "." + w) == [NumeralValue(u), NumeralValue(w)]
  {
    assert '.' !in u && '.' !in w by {
      assert !IsDigit('.');
    }
    SplitWhole(w, '.');
    SplitHead(u, '.', w);
    assert Split(u + "." + w, '.') == [u, w];
  }

  /** The keys of the example below are integer pairs. */
  lemma ExampleKeyValues()
    ensures Key(Numeric, "1.30") == [1, 30] && Key(Numeric, "1.9") == [1, 9] && Key(Numeric, "1.29") == [1, 29]
    ensures IsNumericVersion("1.30") && IsNumericVersion("1.9") && IsNumericVersion("1.29")
  {
    TwoComponentKey("1", "30");
    TwoComponentKey("1", "9");
    TwoComponentKey("1", "29");
    assert "1" + "." + "30" == "1.30" && "1" + "." + "9" == "1.9" && "1" + "." + "29" == "1.29";
    assert "30"[..1] == "3" && "29"[..1] == "2";
    assert NumeralValue("30") == 30 && NumeralValue("29") == 29 && NumeralValue("9") == 9 && NumeralValue("1") == 1;
  }

  /** The keys of the example below compare as integers, not as text. */
  lemma ExampleKeys()
    ensures LexLe(Key(Numeric, "1.9"), Key(Numeric, "1.29"))
    ensures !LexLe(Key(Numeric, "1.30"), Key(Numeric, "1.9")) && !LexLe(Key(Numeric, "1.30"), Key(Numeric, "1.29"))
    ensures OrderingFor(["1.30", "1.9", "1.29"]) == Numeric
  {
    ExampleKeyValues();
    var ka, kb, kc := [1, 30], [1, 9], [1, 29];
    assert ka[1..] == [30] && kb[1..] == [9] && kc[1..] == [29];
    assert LexLe(kb, kc) && !LexLe(ka, kb) && !LexLe(ka, kc);
    var vs := ["1.30", "1.9", "1.29"];
    assert forall i :: 0 <= i < |vs| ==> IsNumericVersion(vs[i]);
  }

  lemma SortTwo(key: string -> seq<int>, b: string, c: string)
    requires KeyLe(key, b, c)
    ensures SortBy(key, [b, c]) == [b, c]
  {
    assert [b, c][1..] == [c] && [c][1..] == [];
    assert SortBy(key, [c]) == Insert(key, c, []) == [c];
  }

  lemma InsertLast(key: string -> seq<int>, a: string, b: string, c: string)
    requires !KeyLe(key, a, b) && !KeyLe(key, a, c)
    ensures Insert(key, a, [b, c]) == [b, c, a]
  {
    assert [b, c][1..] == [c] && [c][1..] == [];
    assert Insert(key, a, [c]) == [c] + Insert(key, a, []) == [c, a];
  }

  /** Sorting three elements where the first key is the largest and the
      other two are in order already. */
  lemma SortThree(key: string -> seq<int>, a: string, b: string, c: string)
    requires KeyLe(key, b, c) && !KeyLe(key, a, b) && !KeyLe(key, a, c)
    ensures SortBy(key, [a, b, c]) == [b, c, a]
  {
    assert [a, b, c][1..] == [b, c];
    SortTwo(key, b, c);
    InsertLast(key, a, b, c);
  }

  /** Numeric order puts "1.9" before "1.29" before "1.30", where a plain
      string sort would put "1.30" before "1.9". */
  lemma NumericExample(vs: seq<string>)
    requires vs == ["1.30", "1.9", "1.29"]
    ensures SortVersions(vs) == ["1.9", "1.29", "1.30"]
  {
    var key := SortKey(Numeric);
    ExampleKeys();
    assert KeyLe(key, vs[1], vs[2]) && !KeyLe(key, vs[0], vs[1]) && !KeyLe(key, vs[0], vs[2]);
    SortThree(key, vs[0], vs[1], vs[2]);
    assert [vs[0], vs[1], vs[2]] == vs;
  }
}
