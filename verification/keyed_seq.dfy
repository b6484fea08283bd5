/** The array idioms the picker applies to its selection lists: `filter(k => k !== key)`,
    `includes(key)`, the spread-append `[...list, key]`, the toggle built from them, and the
    bulk toggle of `toggleQuarterSelection`. The lists stay sequences: they keep their order
    and may hold a key more than once. */
module KeyedSeq {

  /** `s.filter(y => y !== x)`: s with every occurrence of x removed. */
  function Without<T(==,!new)>(s: seq<T>, x: T): (r: seq<T>)
    ensures forall y :: y in r <==> y in s && y != x
    ensures multiset(r) == multiset(s)[x := 0]
    ensures x !in s ==> r == s
  {
    if s == [] then []
    else
      assert s == [s[0]] + s[1..];
      if s[0] == x then Without(s[1..], x) else [s[0]] + Without(s[1..], x)
  }

  /** Filtering distributes over concatenation. */
  lemma {:induction false} WithoutConcat<T(!new)>(a: seq<T>, b: seq<T>, x: T)
    ensures Without(a + b, x) == Without(a, x) + Without(b, x)
  {
    if a == [] {
      assert a + b == b;
    } else {
      assert (a + b)[0] == a[0];
      assert (a + b)[1..] == a[1..] + b;
      WithoutConcat(a[1..], b, x);
    }
  }

  /** The toggle of the selection handlers: when x is present every occurrence of it is
      filtered out, otherwise x is appended. */
  function Toggled<T(==,!new)>(s: seq<T>, x: T): (r: seq<T>)
    ensures x in r <==> x !in s
    ensures forall y :: y != x ==> (y in r <==> y in s)
    ensures x in s ==> multiset(r) == multiset(s)[x := 0]
    ensures x !in s ==> multiset(r) == multiset(s) + multiset{x}
  {
    if x in s then Without(s, x) else s + [x]
  }

  /** Toggling a key twice restores every key's membership, and restores the list
      itself when the key was absent to begin with. */
  lemma ToggleTwice<T(!new)>(s: seq<T>, x: T)
    ensures forall y :: y in Toggled(Toggled(s, x), x) <==> y in s
    ensures x !in s ==> Toggled(Toggled(s, x), x) == s
  {
    if x !in s {
      WithoutConcat(s, [x], x);
      assert Without([x], x) == [];
    }
  }

  /** One pass of the loop body of `toggleQuarterSelection`: a present key is filtered
      out only when `selected` holds; in every other case the key is appended. */
  function CascadeStep<T(==,!new)>(s: seq<T>, key: T, selected: bool): seq<T> {
    if key in s && selected then Without(s, key) else s + [key]
  }

  /** The loop of `toggleQuarterSelection` over all keys, in order. */
  function Cascade<T(==,!new)>(s: seq<T>, keys: seq<T>, selected: bool): seq<T>
    decreases |keys|
  {
    if keys == [] then s
    else CascadeStep(Cascade(s, keys[..|keys| - 1], selected), keys[|keys| - 1], selected)
  }

  predicate Distinct<T(==,!new)>(keys: seq<T>) {
    forall i, j :: 0 <= i < j < |keys| ==> keys[i] != keys[j]
  }

  /** With `selected` false nothing is ever removed or deduplicated: every key is
      appended, present or not. */
  lemma {:induction false} CascadeAppends<T(!new)>(s: seq<T>, keys: seq<T>)
    ensures Cascade(s, keys, false) == s + keys
    decreases |keys|
  {
    if keys != [] {
      var n := |keys|;
      CascadeAppends(s, keys[..n - 1]);
      assert keys == keys[..n - 1] + [keys[n - 1]];
    }
  }

  /** A key that is not among the cascaded keys keeps its membership. */
  lemma {:induction false} CascadeOutside<T(!new)>(s: seq<T>, keys: seq<T>, selected: bool, y: T)
    requires y !in keys
    ensures y in Cascade(s, keys, selected) <==> y in s
    decreases |keys|
  {
    if keys != [] {
      var n := |keys|;
      assert keys[n - 1] in keys;
      assert forall k :: k in keys[..n - 1] ==> k in keys;
      CascadeOutside(s, keys[..n - 1], selected, y);
    }
  }

  /** With `selected` true and distinct keys, each cascaded key's membership flips. */
  lemma {:induction false} CascadeFlips<T(!new)>(s: seq<T>, keys: seq<T>, y: T)
    requires Distinct(keys)
    requires y in keys
    ensures y in Cascade(s, keys, true) <==> y !in s
    decreases |keys|
  {
    var n := |keys|;
    var prefix := keys[..n - 1];
    assert Distinct(prefix);
    if y == keys[n - 1] {
      assert y !in prefix by {
        forall i | 0 <= i < n - 1 ensures prefix[i] != y {
          assert keys[i] != keys[n - 1];
        }
      }
      CascadeOutside(s, prefix, true, y);
    } else {
      assert keys == prefix + [keys[n - 1]];
      assert y in prefix;
      CascadeFlips(s, prefix, y);
    }
  }

  /** The first i keys cascaded with `selected` true out of s + keys leave s + keys[i..]. */
  lemma {:induction false} CascadeRemovesPrefix<T(!new)>(s: seq<T>, keys: seq<T>, i: nat)
    requires Distinct(keys)
    requires forall k :: k in keys ==> k !in s
    requires i <= |keys|
    ensures Cascade(s + keys, keys[..i], true) == s + keys[i..]
  {
    if i == 0 {
      assert keys[..0] == [] && keys[0..] == keys;
    } else {
      var k := keys[i - 1];
      var rest := keys[i..];
      var prefix := keys[..i];
      assert prefix[..i - 1] == keys[..i - 1] && prefix[i - 1] == k;
      CascadeRemovesPrefix(s, keys, i - 1);
      assert keys[i - 1..] == [k] + rest;
      assert Cascade(s + keys, prefix, true) == CascadeStep(s + ([k] + rest), k, true);
      assert k in keys;
      DistinctAfter(keys, i - 1);
      WithoutOnly(s, k, rest);
    }
  }

  /** A key of a list of distinct keys does not occur after its position. */
  lemma DistinctAfter<T(!new)>(keys: seq<T>, i: nat)
    requires Distinct(keys) && i < |keys|
    ensures keys[i] !in keys[i + 1..]
  {
    var rest := keys[i + 1..];
    forall j | 0 <= j < |rest| ensures rest[j] != keys[i] {
      assert rest[j] == keys[i + 1 + j];
    }
  }

  /** Filtering out a key that occurs once removes just that occurrence. */
  lemma WithoutOnly<T(!new)>(s: seq<T>, k: T, rest: seq<T>)
    requires k !in s && k !in rest
    ensures k in s + ([k] + rest)
    ensures Without(s + ([k] + rest), k) == s + rest
  {
    assert (s + ([k] + rest))[|s|] == k;
    WithoutConcat(s, [k] + rest, k);
    WithoutConcat([k], rest, k);
    assert Without([k], k) == [];
  }

  /** Cascading distinct keys with `selected` true undoes appending them to a list that
      held none of them. */
  lemma CascadeUndoesAppend<T(!new)>(s: seq<T>, keys: seq<T>)
    requires Distinct(keys)
    requires forall k :: k in keys ==> k !in s
    ensures Cascade(s + keys, keys, true) == s
  {
    CascadeRemovesPrefix(s, keys, |keys|);
    assert keys[..|keys|] == keys;
    assert keys[|keys|..] == [];
    assert s + [] == s;
  }
}
