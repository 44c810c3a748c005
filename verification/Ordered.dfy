/** Sorted and duplicate-free string lists: what ranging over a Go set and calling
    `sort.Strings` yields, and the order-keeping `uniqueStrings`. */
module Ordered {
  import opened Text

  function Elems(s: seq<string>): set<string> {
    set x | x in s
  }

  lemma ElemsConcat(a: seq<string>, b: seq<string>)
    ensures Elems(a + b) == Elems(a) + Elems(b)
  {
  }

  lemma NoElems(s: seq<string>)
    ensures Elems(s) == {} <==> s == []
  {
    if s != [] {
      assert s[0] in Elems(s);
    }
  }

  ghost predicate StrictlySorted(s: seq<string>) {
    forall i, j | 0 <= i < j < |s| :: Less(s[i], s[j])
  }

  /** A strictly sorted list is determined by its elements. */
  lemma {:induction false} SortedUnique(a: seq<string>, b: seq<string>)
    requires StrictlySorted(a) && StrictlySorted(b)
    requires Elems(a) == Elems(b)
    ensures a == b
  {
    if a == [] {
      NoElems(b);
    } else {
      assert a[0] in Elems(b);
      assert b != [];
      assert b[0] in Elems(a);
      SameHead(a, b);
      TailElems(a);
      TailElems(b);
      SortedUnique(a[1..], b[1..]);
    }
  }

  lemma SameHead(a: seq<string>, b: seq<string>)
    requires a != [] && b != [] && a[0] in b && b[0] in a
    requires StrictlySorted(a) && StrictlySorted(b)
    ensures a[0] == b[0]
  {
    if a[0] != b[0] {
      assert Less(a[0], b[0]) && Less(b[0], a[0]);
      LeqAntisymmetric(a[0], b[0]);
    }
  }

  lemma TailElems(a: seq<string>)
    requires a != [] && StrictlySorted(a)
    ensures Elems(a[1..]) == Elems(a) - {a[0]}
  {
    forall x | x in Elems(a) - {a[0]} ensures x in a[1..] {
      var i :| 0 <= i < |a| && a[i] == x;
      assert a[1..][i - 1] == x;
    }
  }

  /** Inserts a new string in its place. */
  function InsertSorted(s: seq<string>, x: string): (r: seq<string>)
    ensures Elems(r) == Elems(s) + {x}
  {
    if s == [] then [x]
    else if Leq(x, s[0]) then [x] + s
    else
      var rest := InsertSorted(s[1..], x);
      assert s == [s[0]] + s[1..];
      assert forall y :: y in [s[0]] + rest <==> y == s[0] || y in Elems(rest);
      [s[0]] + rest
  }

  lemma {:induction false} InsertKeepsOrder(s: seq<string>, x: string)
    requires StrictlySorted(s) && x !in s
    ensures StrictlySorted(InsertSorted(s, x))
  {
    if s != [] {
      var r := InsertSorted(s, x);
      if Leq(x, s[0]) {
        forall j | 0 <= j < |s| ensures Less(x, s[j]) {
          if j > 0 { LessTransitive(x, s[0], s[j]); }
        }
      } else {
        LeqTotal(x, s[0]);
        InsertKeepsOrder(s[1..], x);
        var rest := InsertSorted(s[1..], x);
        forall j | 0 <= j < |rest| ensures Less(s[0], rest[j]) {
          assert rest[j] in Elems(rest);
        }
      }
    }
  }

  /** The elements of a set in `sort.Strings` order. */
  ghost function Sorted(s: set<string>): (r: seq<string>)
    ensures StrictlySorted(r)
    ensures Elems(r) == s
  {
    if s == {} then []
    else
      var x :| x in s;
      var r := Sorted(s - {x});
      assert x in r <==> x in Elems(r);
      InsertKeepsOrder(r, x);
      InsertSorted(r, x)
  }

  /** Ranges over a set in any order and sorts what it collected. */
  method SortedKeys(s: set<string>) returns (out: seq<string>)
    ensures out == Sorted(s)
  {
    out := [];
    var rest := s;
    while rest != {}
      invariant rest <= s && Elems(out) == s - rest
      invariant StrictlySorted(out)
      decreases rest
    {
      var x :| x in rest;
      assert x in out <==> x in Elems(out);
      InsertKeepsOrder(out, x);
      out := InsertSorted(out, x);
      rest := rest - {x};
    }
    SortedUnique(out, Sorted(s));
  }

  function TrimAll(values: seq<string>): (r: seq<string>)
    ensures |r| == |values|
  {
    seq(|values|, i requires 0 <= i < |values| => Trim(values[i]))
  }

  /** The names a list denotes once its values are trimmed and the empty ones dropped. */
  function CleanSet(values: seq<string>): set<string> {
    Elems(TrimAll(values)) - {""}
  }

  /** `uniqueStrings`: first occurrences of the trimmed non-blank values, in order. */
  function Unique(values: seq<string>): seq<string> {
    if values == [] then []
    else AddUnique(Unique(values[..|values| - 1]), Trim(values[|values| - 1]))
  }

  function AddUnique(out: seq<string>, v: string): (r: seq<string>)
    ensures Elems(r) == Elems(out) + ({v} - {""})
  {
    if v == "" then out
    else if v in out then assert v in Elems(out); out
    else out + [v]
  }

  lemma {:induction false} UniqueElems(values: seq<string>)
    ensures Elems(Unique(values)) == CleanSet(values)
  {
    if values != [] {
      var rest, v := values[..|values| - 1], values[|values| - 1];
      assert CleanSet(values) == CleanSet(rest) + ({Trim(v)} - {""}) by {
        assert values == rest + [v];
        CleanSetSnoc(rest, v);
      }
      UniqueElems(rest);
      assert Unique(values) == AddUnique(Unique(rest), Trim(v));
    }
  }

  lemma CleanSetConcat(a: seq<string>, b: seq<string>)
    ensures CleanSet(a + b) == CleanSet(a) + CleanSet(b)
  {
    assert TrimAll(a + b) == TrimAll(a) + TrimAll(b);
    ElemsConcat(TrimAll(a), TrimAll(b));
  }

  lemma CleanSetSnoc(values: seq<string>, v: string)
    ensures CleanSet(values + [v]) == CleanSet(values) + ({Trim(v)} - {""})
  {
    assert TrimAll(values + [v]) == TrimAll(values) + [Trim(v)];
    ElemsConcat(TrimAll(values), [Trim(v)]);
  }

  lemma InCleanSet(values: seq<string>, v: string)
    requires v in values && Trim(v) != ""
    ensures Trim(v) in CleanSet(values)
  {
    var i :| 0 <= i < |values| && values[i] == v;
    assert TrimAll(values)[i] == Trim(v);
  }

  /** A list of names that trimming leaves alone. */
  predicate Clean(values: seq<string>) {
    forall v | v in values :: v != "" && Trimmed(v)
  }

  lemma CleanSetOfClean(values: seq<string>)
    requires Clean(values)
    ensures CleanSet(values) == Elems(values)
  {
    forall i | 0 <= i < |values| ensures TrimAll(values)[i] == values[i] {
      TrimFixed(values[i]);
    }
    assert TrimAll(values) == values;
  }

  lemma UniqueIsClean(values: seq<string>)
    ensures Clean(Unique(values))
    ensures CleanSet(Unique(values)) == CleanSet(values)
  {
    UniqueElems(values);
    forall v | v in Unique(values) ensures v != "" && Trimmed(v) {
      assert v in Elems(Unique(values));
      var i :| 0 <= i < |values| && Trim(values[i]) == v;
      TrimTrimmed(values[i]);
    }
    CleanSetOfClean(Unique(values));
  }

  /** `uniqueStrings` keeps no value twice. */
  lemma {:induction false} UniqueDistinct(values: seq<string>)
    ensures forall i, j | 0 <= i < j < |Unique(values)| :: Unique(values)[i] != Unique(values)[j]
  {
    if values != [] {
      UniqueDistinct(values[..|values| - 1]);
    }
  }

  /** A clean name stands in the list exactly when some value trims to it. */
  lemma CleanMember(values: seq<string>, x: string)
    ensures x in CleanSet(values) <==> x != "" && exists i :: 0 <= i < |values| && Trim(values[i]) == x
  {
    if i :| x != "" && 0 <= i < |values| && Trim(values[i]) == x {
      InCleanSet(values, values[i]);
    }
  }

  /** `uniqueStrings` keeps the non-blank trimmed values and nothing else, and puts a value before
      those that only occur after it. */
  lemma UniqueMembers(values: seq<string>, x: string)
    ensures x in Unique(values) <==> x != "" && exists i :: 0 <= i < |values| && Trim(values[i]) == x
  {
    UniqueElems(values);
    CleanMember(values, x);
    assert x in Unique(values) <==> x in Elems(Unique(values));
  }

  lemma {:induction false} UniqueGrows(a: seq<string>, b: seq<string>)
    ensures Unique(a) <= Unique(a + b)
  {
    if b == [] {
      assert a + b == a;
    } else {
      var n := |b| - 1;
      UniqueGrows(a, b[..n]);
      assert (a + b)[..|a + b| - 1] == a + b[..n];
    }
  }

  lemma UniqueNext(values: seq<string>, i: nat)
    requires i < |values|
    ensures Unique(values[..i + 1]) == AddUnique(Unique(values[..i]), Trim(values[i]))
  {
    assert values[..i + 1][..i] == values[..i];
  }

  method UniqueStrings(values: seq<string>) returns (out: seq<string>)
    ensures out == Unique(values)
  {
    var seen: set<string> := {};
    out := [];
    for i := 0 to |values|
      invariant out == Unique(values[..i])
      invariant seen == Elems(out)
    {
      UniqueNext(values, i);
      var v := Trim(values[i]);
      if v == "" || v in seen {
        continue;
      }
      seen := seen + {v};
      out := out + [v];
    }
    assert values[..|values|] == values;
  }

  /** `uniqueSortedStrings` and `uniqueSorted`: the clean names in sorted order. */
  method UniqueSorted(values: seq<string>) returns (out: seq<string>)
    ensures out == Sorted(CleanSet(values))
  {
    var names: set<string> := {};
    for i := 0 to |values|
      invariant names == CleanSet(values[..i])
    {
      assert values[..i + 1] == values[..i] + [values[i]];
      CleanSetSnoc(values[..i], values[i]);
      var v := Trim(values[i]);
      if v != "" {
        names := names + {v};
      }
    }
    assert values[..|values|] == values;
    out := SortedKeys(names);
  }
}
