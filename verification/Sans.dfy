/** Subject alternative names: the normal form of a name list, its comma-joined column,
    the four-pattern search over that column and the overlap report. */
module Sans {
  import opened Text
  import opened Ordered

  // ---- Comma lists ----

  /** `strings.Join(xs, ",")`. */
  function Join(xs: seq<string>): string {
    if xs == [] then ""
    else if |xs| == 1 then xs[0]
    else xs[0] + ("," + Join(xs[1..]))
  }

  /** `strings.Split(s, ",")`. */
  function Split(s: string): (r: seq<string>)
    ensures r != []
  {
    if s == "" then [""]
    else
      var rest := Split(s[1..]);
      if s[0] == ',' then [""] + rest else [[s[0]] + rest[0]] + rest[1..]
  }

  predicate CommaFree(xs: seq<string>) {
    forall x | x in xs :: ',' !in x
  }

  lemma {:induction false} JoinSplit(s: string)
    ensures Join(Split(s)) == s
  {
    if s != "" {
      JoinSplit(s[1..]);
      var rest := Split(s[1..]);
      assert s == [s[0]] + s[1..];
      if s[0] == ',' {
        assert ([""] + rest)[1..] == rest;
      } else {
        var xs := [[s[0]] + rest[0]] + rest[1..];
        assert xs[1..] == rest[1..];
        if |rest| > 1 {
          assert [s[0]] + rest[0] + ("," + Join(rest[1..])) == [s[0]] + (rest[0] + ("," + Join(rest[1..])));
        }
      }
    }
  }

  /** Two lists share a column value exactly when they split alike. */
  lemma SameColumnIff(a: string, b: string)
    ensures a == b <==> Split(a) == Split(b)
  {
    JoinSplit(a);
    JoinSplit(b);
  }

  lemma {:induction false} SplitPlain(a: string)
    requires ',' !in a
    ensures Split(a) == [a]
  {
    if a != "" {
      SplitPlain(a[1..]);
      assert a == [a[0]] + a[1..];
    }
  }

  lemma {:induction false} SplitAfter(a: string, b: string)
    requires ',' !in a
    ensures Split(a + ("," + b)) == [a] + Split(b)
  {
    var s := a + ("," + b);
    if a == "" {
      assert s[1..] == b;
    } else {
      SplitAfter(a[1..], b);
      assert s[1..] == a[1..] + ("," + b);
      assert a == [a[0]] + a[1..];
    }
  }

  lemma {:induction false} SplitJoin(xs: seq<string>)
    requires xs != [] && CommaFree(xs)
    ensures Split(Join(xs)) == xs
  {
    if |xs| == 1 {
      SplitPlain(xs[0]);
    } else {
      SplitJoin(xs[1..]);
      SplitAfter(xs[0], Join(xs[1..]));
    }
  }

  // ---- Normal form ----

  /** The names a list denotes: trimmed, lower-cased, blanks dropped. */
  function NormalSet(sans: seq<string>): set<string> {
    (set s | s in sans :: NormalName(s)) - {""}
  }

  ghost function Normalized(sans: seq<string>): seq<string> {
    Sorted(NormalSet(sans))
  }

  ghost function Column(sans: seq<string>): string {
    Join(Normalized(sans))
  }

  method JoinAll(xs: seq<string>) returns (csv: string)
    ensures csv == Join(xs)
  {
    if |xs| == 0 {
      return "";
    }
    var i := |xs| - 1;
    csv := xs[i];
    while i > 0
      invariant 0 <= i < |xs| && csv == Join(xs[i..])
    {
      i := i - 1;
      assert xs[i..][1..] == xs[i + 1..];
      csv := xs[i] + ("," + csv);
    }
  }

  /** `NormalizeSANs`; the hash it also returns is computed from the column alone. */
  method NormalizeSANs(sans: seq<string>) returns (normalized: seq<string>, csv: string)
    ensures normalized == Normalized(sans)
    ensures csv == Column(sans)
  {
    var names: set<string> := {};
    for i := 0 to |sans|
      invariant names == NormalSet(sans[..i])
    {
      assert sans[..i + 1] == sans[..i] + [sans[i]];
      NormalSnoc(sans[..i], sans[i]);
      var s := NormalName(sans[i]);
      if s == "" {
        continue;
      }
      names := names + {s};
    }
    assert sans[..|sans|] == sans;
    normalized := SortedKeys(names);
    csv := JoinAll(normalized);
  }

  lemma NormalSnoc(sans: seq<string>, s: string)
    ensures NormalSet(sans + [s]) == NormalSet(sans) + ({NormalName(s)} - {""})
  {
    assert forall x :: x in sans + [s] <==> x in sans || x == s;
  }

  lemma InNormalSet(sans: seq<string>, n: string)
    requires n in NormalSet(sans)
    ensures IsNormal(n) && n != "" && NormalName(n) == n
  {
    var s :| s in sans && NormalName(s) == n;
    NormalNameIsNormal(s);
    NormalNameIsNormal(n);
  }

  /** Each name of `a` is, up to case and padding, a name of `b`. */
  ghost predicate NamesWithin(a: seq<string>, b: seq<string>) {
    forall x :: x in a && NormalName(x) != "" ==> exists y :: y in b && NormalName(y) == NormalName(x)
  }

  /** The normal form holds the lower-cased trimmed names that are not blank. */
  lemma NormalNamesExact(sans: seq<string>, n: string)
    ensures n in Normalized(sans) <==> n != "" && exists i :: 0 <= i < |sans| && ToLower(Trim(sans[i])) == n
  {
    assert n in Normalized(sans) <==> n in Elems(Normalized(sans));
    if s :| n != "" && s in sans && NormalName(s) == n {
      var i :| 0 <= i < |sans| && sans[i] == s;
    }
    if i :| n != "" && 0 <= i < |sans| && ToLower(Trim(sans[i])) == n {
      assert sans[i] in sans && NormalName(sans[i]) == n;
    }
  }

  /** The list is strictly sorted and a fixed point. */
  lemma NormalFormIsFixed(a: seq<string>)
    ensures StrictlySorted(Normalized(a))
    ensures Normalized(Normalized(a)) == Normalized(a)
  {
    NormalSetFixed(a);
  }

  /** Two lists normalise alike exactly when each covers the other's names up to order,
      repetition, case and padding. */
  lemma NormalFormIsCanonical(a: seq<string>, b: seq<string>)
    ensures Normalized(a) == Normalized(b) <==> NamesWithin(a, b) && NamesWithin(b, a)
  {
    WithinIff(a, b);
    WithinIff(b, a);
    SameSortedIff(NormalSet(a), NormalSet(b));
  }

  lemma SameSortedIff(a: set<string>, b: set<string>)
    ensures Sorted(a) == Sorted(b) <==> a == b
  {
    assert Elems(Sorted(a)) == a && Elems(Sorted(b)) == b;
  }

  lemma NormalSetFixed(a: seq<string>)
    ensures NormalSet(Normalized(a)) == NormalSet(a)
  {
    var n := Normalized(a);
    forall x | x in n ensures NormalName(x) == x && x != "" {
      assert x in Elems(n);
      InNormalSet(a, x);
    }
    forall x | x in NormalSet(a) ensures x in NormalSet(n) {
      assert x in Elems(n);
      assert x in n && NormalName(x) == x;
    }
  }

  lemma WithinIff(a: seq<string>, b: seq<string>)
    ensures NamesWithin(a, b) <==> NormalSet(a) <= NormalSet(b)
  {
    if NormalSet(a) <= NormalSet(b) {
      forall x | x in a && NormalName(x) != "" ensures exists y :: y in b && NormalName(y) == NormalName(x) {
        assert NormalName(x) in NormalSet(b);
      }
    }
    if NamesWithin(a, b) {
      forall n | n in NormalSet(a) ensures n in NormalSet(b) {
        var x :| x in a && NormalName(x) == n;
      }
    }
  }

  predicate NoCommaNames(names: set<string>) {
    forall n | n in names :: ',' !in n
  }

  lemma NormalizedCommaFree(sans: seq<string>)
    requires NoCommaNames(NormalSet(sans))
    ensures CommaFree(Normalized(sans))
    ensures Normalized(sans) == [] <==> NormalSet(sans) == {}
  {
    var n := Normalized(sans);
    NoElems(n);
    forall x | x in n ensures ',' !in x {
      assert x in Elems(n);
    }
  }

  /** Splitting the column of comma-free names gives the list back. */
  lemma ColumnRoundTrip(sans: seq<string>)
    requires NoCommaNames(NormalSet(sans))
    ensures Split(Column(sans)) == if NormalSet(sans) == {} then [""] else Normalized(sans)
  {
    NormalizedCommaFree(sans);
    if NormalSet(sans) != {} {
      SplitJoin(Normalized(sans));
    }
  }

  ghost predicate Injective(hash: string -> string) {
    forall a: string, b: string :: hash(a) == hash(b) ==> a == b
  }

  /** The duplicate lookup by hash is equality of the name sets. */
  lemma HashLookupIsSetEquality(hash: string -> string, a: seq<string>, b: seq<string>)
    requires Injective(hash)
    requires NoCommaNames(NormalSet(a)) && NoCommaNames(NormalSet(b))
    ensures hash(Column(a)) == hash(Column(b)) <==> NormalSet(a) == NormalSet(b)
  {
    ColumnRoundTrip(a);
    ColumnRoundTrip(b);
    assert Elems(Normalized(a)) == NormalSet(a) && Elems(Normalized(b)) == NormalSet(b);
    if Column(a) == Column(b) {
      EmptyNameIsNotNormal(a);
      EmptyNameIsNotNormal(b);
    }
  }

  lemma EmptyNameIsNotNormal(sans: seq<string>)
    ensures "" !in NormalSet(sans)
    ensures Normalized(sans) != [""]
  {
    var n := Normalized(sans);
    assert n != [] ==> n[0] in Elems(n);
  }

  /** The comma parts of each entry in turn. */
  function AllParts(sans: seq<string>): seq<string> {
    if sans == [] then [] else AllParts(sans[..|sans| - 1]) + Split(sans[|sans| - 1])
  }

  lemma AllPartsSnoc(xs: seq<string>, x: string)
    ensures AllParts(xs + [x]) == AllParts(xs) + Split(x)
  {
    assert (xs + [x])[..|xs|] == xs;
  }

  lemma SplitGrows(c: char, head: seq<string>, tail: seq<string>)
    requires head != []
    ensures [""] + (head + tail) == [""] + head + tail
    ensures [[c] + (head + tail)[0]] + (head + tail)[1..] == [[c] + head[0]] + head[1..] + tail
  {
    assert (head + tail)[1..] == head[1..] + tail;
  }

  lemma {:induction false} SplitConcat(a: string, b: string)
    ensures Split(a + ("," + b)) == Split(a) + Split(b)
  {
    var s := a + ("," + b);
    if a == "" {
      assert s[1..] == b;
    } else {
      SplitConcat(a[1..], b);
      assert s[0] == a[0] && s[1..] == a[1..] + ("," + b);
      SplitGrows(a[0], Split(a[1..]), Split(b));
    }
  }

  lemma {:induction false} JoinSnoc(xs: seq<string>, x: string)
    requires xs != []
    ensures Join(xs + [x]) == Join(xs) + ("," + x)
  {
    var all := xs + [x];
    assert all[1..] == xs[1..] + [x];
    if |xs| > 1 {
      JoinSnoc(xs[1..], x);
      CommaGroups(xs[0], Join(xs[1..]), x);
    } else {
      assert all[1..] == [x];
      assert Join([x]) == x;
    }
  }

  lemma CommaGroups(a: string, b: string, c: string)
    ensures a + ("," + (b + ("," + c))) == a + ("," + b) + ("," + c)
  {
  }

  /** Splitting a join yields the parts of its entries, comma-free or not. */
  lemma {:induction false} SplitJoinParts(xs: seq<string>)
    requires xs != []
    ensures Split(Join(xs)) == AllParts(xs)
  {
    var init, last := xs[..|xs| - 1], xs[|xs| - 1];
    assert xs == init + [last];
    AllPartsSnoc(init, last);
    if init == [] {
      assert AllParts(init) + Split(last) == Split(last);
    } else {
      SplitJoinParts(init);
      JoinSnoc(init, last);
      SplitConcat(Join(init), last);
    }
  }

  lemma EmptyColumnIff(a: seq<string>)
    ensures Column(a) == "" <==> Normalized(a) == []
    ensures AllParts(Normalized(a)) == [] <==> Normalized(a) == []
  {
    var n := Normalized(a);
    if n != [] {
      assert n[0] in Elems(n);
      InNormalSet(a, n[0]);
      SplitJoinParts(n);
    }
  }

  /** Two lists get the same column, and so the same hash, exactly when the comma parts of their
      normal forms, one entry after the other, are the same. */
  lemma SameColumnPartsIff(a: seq<string>, b: seq<string>)
    ensures Column(a) == Column(b) <==> AllParts(Normalized(a)) == AllParts(Normalized(b))
  {
    EmptyColumnIff(a);
    EmptyColumnIff(b);
    if Normalized(a) != [] && Normalized(b) != [] {
      SplitJoinParts(Normalized(a));
      SplitJoinParts(Normalized(b));
      SameColumnIff(Column(a), Column(b));
    }
  }

  /** The duplicate lookup takes `b` for `a` although their names differ. */
  ghost predicate Mistaken(a: seq<string>, b: seq<string>) {
    Column(a) == Column(b) && NormalSet(a) != NormalSet(b)
  }

  /** Comma-free names are mistaken for some other list exactly when there are two or more:
      their column is also one name that holds commas. */
  lemma CommaFreeMistakenIff(a: seq<string>)
    requires NoCommaNames(NormalSet(a))
    ensures (exists b: seq<string> :: Mistaken(a, b)) <==> |Normalized(a)| >= 2
  {
    var n, csv := Normalized(a), Column(a);
    NormalizedCommaFree(a);
    if |n| >= 2 {
      ColumnIsNormal(a);
      SingleColumn(csv);
      CommaInJoin(n);
      assert csv in NormalSet([csv]) && csv !in NormalSet(a);
      assert Mistaken(a, [csv]);
    } else {
      forall b: seq<string> | Column(a) == Column(b) ensures NormalSet(a) == NormalSet(b) {
        SmallColumn(a, b);
      }
    }
  }

  lemma SmallColumn(a: seq<string>, b: seq<string>)
    requires NoCommaNames(NormalSet(a)) && |Normalized(a)| <= 1 && Column(a) == Column(b)
    ensures NormalSet(a) == NormalSet(b)
  {
    var n, m := Normalized(a), Normalized(b);
    EmptyColumnIff(a);
    EmptyColumnIff(b);
    NormalizedCommaFree(a);
    if n != [] {
      assert n[0] in n;
      SplitPlain(n[0]);
      SplitJoinParts(m);
      SinglePart(m);
      SplitPlain(m[0]);
      assert n == [n[0]] && m == [m[0]];
    }
    assert Elems(n) == NormalSet(a) && Elems(m) == NormalSet(b);
  }

  /** A list whose parts are a single one has a single, comma-free entry. */
  lemma SinglePart(xs: seq<string>)
    requires xs != [] && |AllParts(xs)| == 1
    ensures |xs| == 1 && ',' !in xs[0]
  {
    PartsCount(xs);
    var x := xs[0];
    assert xs == [] + [x];
    AllPartsSnoc([], x);
    SplitLength(x);
  }

  lemma SplitLength(s: string)
    ensures |Split(s)| > 1 <==> ',' in s
  {
    if ',' in s {
      var k := FirstComma(s);
      assert s == s[..k] + ("," + s[k + 1..]);
      SplitAfter(s[..k], s[k + 1..]);
    } else {
      SplitPlain(s);
    }
  }

  lemma {:induction false} PartsCount(xs: seq<string>)
    ensures |AllParts(xs)| >= |xs|
  {
    if xs != [] {
      PartsCount(xs[..|xs| - 1]);
    }
  }

  predicate NoneEmpty(xs: seq<string>) {
    forall i | 0 <= i < |xs| :: xs[i] != ""
  }

  lemma {:induction false} JoinEnds(xs: seq<string>)
    requires xs != [] && NoneEmpty(xs)
    ensures Join(xs) != "" && Join(xs)[0] == xs[0][0]
    ensures Join(xs)[|Join(xs)| - 1] == xs[|xs| - 1][|xs[|xs| - 1]| - 1]
  {
    if |xs| > 1 {
      JoinEnds(xs[1..]);
      assert xs[1..][|xs| - 2] == xs[|xs| - 1];
    }
  }

  lemma ColumnIsNormal(a: seq<string>)
    requires Normalized(a) != []
    ensures IsNormal(Column(a)) && Column(a) != ""
  {
    var n := Normalized(a);
    forall x | x in n ensures x != "" && Trimmed(x) {
      assert x in Elems(n);
      InNormalSet(a, x);
    }
    assert n[0] in n && n[|n| - 1] in n;
    JoinEnds(n);
    ColumnIsLower(a);
  }

  /** For an injective hash the lookup by hash is equality of the parts. */
  lemma HashLookupIff(hash: string -> string, a: seq<string>, b: seq<string>)
    requires Injective(hash)
    ensures hash(Column(a)) == hash(Column(b)) <==> AllParts(Normalized(a)) == AllParts(Normalized(b))
  {
    SameColumnPartsIff(a, b);
  }

  /** One name that holds a comma is taken for two names. */
  lemma CommaNamesCollide()
    ensures Mistaken(["a", "b"], ["a,b"])
  {
    LiteralsAreNormal();
    PairSet("a", "b");
    PairColumn("a", "b");
    SingleColumn("a,b");
    assert |"a,b"| == 3 && |"a"| == 1 && |"b"| == 1;
  }

  lemma LiteralsAreNormal()
    ensures IsNormal("a,b") && IsNormal("a") && IsNormal("b")
  {
  }

  lemma SingleColumn(w: string)
    requires IsNormal(w) && w != ""
    ensures NormalSet([w]) == {w} && Column([w]) == w
  {
    NormalNameIsNormal(w);
    assert forall s :: s in [w] <==> s == w;
    assert Elems([w]) == {w};
    SortedUnique(Normalized([w]), [w]);
  }

  // ---- LIKE ----

  /** SQLite `s LIKE p` without an escape character: a percent sign matches any run, an
      underscore any one character, and letters compare without ASCII case. */
  predicate Like(s: string, p: string)
    decreases |s| + |p|
  {
    if p == "" then s == ""
    else if p[0] == '%' then Like(s, p[1..]) || (s != "" && Like(s[1..], p))
    else s != "" && (p[0] == '_' || LowerChar(p[0]) == LowerChar(s[0])) && Like(s[1..], p[1..])
  }

  predicate Literal(p: string) {
    '%' !in p && '_' !in p
  }

  lemma {:induction false} LikeLiteral(s: string, lit: string, tail: string)
    requires Literal(lit)
    ensures Like(s, lit + tail) <==> |lit| <= |s| && ToLower(s[..|lit|]) == ToLower(lit) && Like(s[|lit|..], tail)
  {
    if lit == "" {
      assert lit + tail == tail && s[0..] == s;
    } else {
      var p := lit + tail;
      assert p[0] == lit[0] && p[1..] == lit[1..] + tail;
      assert lit[0] in lit;
      if s != "" {
        LikeLiteral(s[1..], lit[1..], tail);
        assert |lit| <= |s| ==> s[1..][|lit| - 1..] == s[|lit|..] && s[1..][..|lit| - 1] == s[..|lit|][1..];
        SplitLower(lit);
        if |lit| <= |s| {
          SplitLower(s[..|lit|]);
        }
      }
    }
  }

  lemma SplitLower(s: string)
    requires s != ""
    ensures ToLower(s) == [LowerChar(s[0])] + ToLower(s[1..])
    ensures forall t: string | t != "" ::
      ToLower(s) == ToLower(t) <==> LowerChar(s[0]) == LowerChar(t[0]) && ToLower(s[1..]) == ToLower(t[1..])
  {
    forall t: string | t != ""
      ensures ToLower(s) == ToLower(t) <==> LowerChar(s[0]) == LowerChar(t[0]) && ToLower(s[1..]) == ToLower(t[1..])
    {
      assert ToLower(t) == [LowerChar(t[0])] + ToLower(t[1..]);
      assert ToLower(t)[1..] == ToLower(t[1..]) && ToLower(s)[1..] == ToLower(s[1..]);
    }
  }

  /** A leading percent sign leaves some suffix to match. */
  lemma {:induction false} LikeAny(s: string, tail: string)
    ensures Like(s, "%" + tail) <==> exists i :: 0 <= i <= |s| && Like(s[i..], tail)
  {
    var p := "%" + tail;
    assert p[1..] == tail;
    assert s[0..] == s;
    if s != "" {
      LikeAny(s[1..], tail);
      forall i | 1 <= i <= |s| ensures s[i..] == s[1..][i - 1..] {
      }
      if Like(s[1..], p) {
        var i :| 0 <= i <= |s| - 1 && Like(s[1..][i..], tail);
        assert Like(s[i + 1..], tail);
      }
      if i :| 0 <= i <= |s| && Like(s[i..], tail) {
        assert i > 0 ==> Like(s[1..][i - 1..], tail);
      }
    }
  }

  lemma LikeEverything(s: string)
    ensures Like(s, "%")
  {
    LikeAny(s, "");
    assert "%" + "" == "%";
    assert Like(s[|s|..], "");
  }

  /** `lit` stands at position `i` of `s`, up to ASCII case. */
  predicate SitsAt(s: string, lit: string, i: int) {
    0 <= i && i + |lit| <= |s| && ToLower(s[i..i + |lit|]) == ToLower(lit)
  }

  lemma LikePrefix(s: string, lit: string)
    requires Literal(lit)
    ensures Like(s, lit + "%") <==> SitsAt(s, lit, 0)
  {
    LikeLiteral(s, lit, "%");
    if |lit| <= |s| {
      LikeEverything(s[|lit|..]);
    }
  }

  lemma LikeSuffix(s: string, lit: string)
    requires Literal(lit)
    ensures Like(s, "%" + lit) <==> SitsAt(s, lit, |s| - |lit|)
  {
    LikeAny(s, lit);
    forall i | 0 <= i <= |s| ensures Like(s[i..], lit) <==> i == |s| - |lit| && SitsAt(s, lit, i) {
      LikeFrom(s, lit, i);
    }
  }

  lemma LikeFrom(s: string, lit: string, i: nat)
    requires Literal(lit) && i <= |s|
    ensures Like(s[i..], lit) <==> i == |s| - |lit| && SitsAt(s, lit, i)
  {
    LikeWhole(s[i..], lit);
    assert s[i..|s|] == s[i..];
  }

  lemma LikeWhole(s: string, lit: string)
    requires Literal(lit)
    ensures Like(s, lit) <==> ToLower(s) == ToLower(lit)
  {
    LikeLiteral(s, lit, "");
    assert lit + "" == lit;
    if |lit| <= |s| {
      assert |s[|lit|..]| == 0 <==> |s| == |lit|;
      assert |s| == |lit| ==> s[..|lit|] == s;
    }
  }

  lemma LikeMiddle(s: string, lit: string)
    requires Literal(lit)
    ensures Like(s, "%" + (lit + "%")) <==> exists i :: SitsAt(s, lit, i)
  {
    LikeAny(s, lit + "%");
    forall i | 0 <= i <= |s| ensures Like(s[i..], lit + "%") <==> SitsAt(s, lit, i) {
      LikePrefix(s[i..], lit);
      if i + |lit| <= |s| {
        assert s[i..][0..0 + |lit|] == s[i..i + |lit|];
      }
    }
  }

  // ---- Where an element of a comma list stands ----

  /** The entry of a comma list at `i..i + |e|`, bounded by commas or the ends. */
  predicate EntryAt(s: string, e: string, i: int) {
    && 0 <= i && i + |e| <= |s| && s[i..i + |e|] == e
    && (i == 0 || s[i - 1] == ',')
    && (i + |e| == |s| || s[i + |e|] == ',')
  }

  function FirstComma(s: string): (k: nat)
    requires ',' in s
    ensures k < |s| && s[k] == ',' && ',' !in s[..k]
  {
    if s[0] == ',' then 0
    else
      assert s == [s[0]] + s[1..];
      var k := FirstComma(s[1..]) + 1;
      assert s[..k] == [s[0]] + s[1..][..k - 1];
      k
  }

  lemma EntriesFrom(s: string, e: string, k: nat)
    requires k < |s| && s[k] == ',' && ',' !in s[..k] && ',' !in e
    ensures EntryAt(s, e, 0) <==> e == s[..k]
    ensures forall i | 1 <= i <= k :: !EntryAt(s, e, i)
    ensures forall i | i > k :: EntryAt(s, e, i) <==> EntryAt(s[k + 1..], e, i - k - 1)
  {
    forall i | 1 <= i <= k ensures !EntryAt(s, e, i) {
      assert s[..k][i - 1] == s[i - 1];
    }
    forall i | i > k ensures EntryAt(s, e, i) <==> EntryAt(s[k + 1..], e, i - k - 1) {
      if i + |e| <= |s| {
        assert s[i..i + |e|] == s[k + 1..][i - k - 1..i - k - 1 + |e|];
      }
    }
    assert s[k] in s;
    EntryNeedsComma(s, e);
    if EntryAt(s, e, 0) {
      assert s[..|e|] == e;
      SameFirstComma(s, k, |e|);
    }
  }

  lemma SameFirstComma(s: string, k: nat, m: nat)
    requires k < |s| && s[k] == ',' && ',' !in s[..k]
    requires m < |s| && s[m] == ',' && ',' !in s[..m]
    ensures k == m
  {
  }

  /** A comma-free string is an entry of the split list exactly when it stands somewhere
      between commas or ends. */
  lemma {:induction false} SplitMember(s: string, e: string)
    requires ',' !in e
    ensures e in Split(s) <==> exists i :: EntryAt(s, e, i)
    decreases |s|
  {
    if ',' !in s {
      SplitPlain(s);
      assert e == s ==> EntryAt(s, e, 0);
      EntryNeedsComma(s, e);
      forall i | EntryAt(s, e, i) ensures i == 0 && e == s {
        assert s[0..|s|] == s;
      }
    } else {
      var k := FirstComma(s);
      var rest := s[k + 1..];
      assert s == s[..k] + ("," + rest);
      SplitAfter(s[..k], rest);
      SplitMember(rest, e);
      EntriesFrom(s, e, k);
      if i :| EntryAt(rest, e, i) {
        assert EntryAt(s, e, i + k + 1);
      }
      if i :| EntryAt(s, e, i) {
        assert i > k ==> EntryAt(rest, e, i - k - 1);
      }
    }
  }

  // ---- The search ----

  /** The column test of the name lookups. */
  predicate Search(csv: string, name: string) {
    || csv == name
    || Like(csv, name + ",%")
    || Like(csv, "%," + (name + ",%"))
    || Like(csv, "%," + name)
  }

  predicate Plain(name: string) {
    ',' !in name && Literal(name)
  }

  lemma LowerCommas(s: string)
    ensures forall i | 0 <= i < |s| :: ToLower(s)[i] == ',' <==> s[i] == ','
    ensures ',' in ToLower(s) <==> ',' in s
  {
    if ',' in s {
      var i :| 0 <= i < |s| && s[i] == ',';
      assert ToLower(s)[i] == ',';
    }
    if ',' in ToLower(s) {
      var i :| 0 <= i < |s| && ToLower(s)[i] == ',';
      assert s[i] in s;
    }
  }

  lemma LowerSlice(s: string, i: int, j: int)
    requires 0 <= i <= j <= |s|
    ensures ToLower(s[i..j]) == ToLower(s)[i..j]
  {
  }

  /** The three positions the patterns look for, in the lower-cased column. */
  lemma PrefixEntry(csv: string, name: string)
    ensures SitsAt(csv, name + ",", 0) <==> EntryAt(ToLower(csv), ToLower(name), 0) && |name| < |csv|
  {
    var l, e, n := ToLower(csv), ToLower(name), |name|;
    LowerConcat(name, ",");
    assert ToLower(",") == ",";
    if n < |csv| {
      LowerSlice(csv, 0, n + 1);
      assert l[0..n + 1] == l[0..n] + [l[n]];
      assert (e + ",")[..n] == e;
    }
  }

  lemma AfterCommaIff(s: string, e: string)
    requires |s| == |e| + 1
    ensures s == "," + e <==> s[0] == ',' && s[1..] == e
  {
    assert s == [s[0]] + s[1..];
    assert ("," + e)[1..] == e;
  }

  lemma SuffixEntry(csv: string, name: string)
    ensures SitsAt(csv, "," + name, |csv| - |name| - 1) <==>
            |name| < |csv| && EntryAt(ToLower(csv), ToLower(name), |csv| - |name|)
  {
    var l, e, i := ToLower(csv), ToLower(name), |csv| - |name|;
    LowerConcat(",", name);
    assert ToLower(",") == ",";
    if |name| < |csv| {
      LowerSlice(csv, i - 1, |csv|);
      AfterCommaIff(l[i - 1..|csv|], e);
      assert l[i - 1..|csv|][1..] == l[i..|csv|];
    }
  }

  lemma MiddleEntry(csv: string, name: string, i: int)
    ensures SitsAt(csv, "," + name + ",", i) <==>
            i >= 0 && i + |name| + 2 <= |csv| && EntryAt(ToLower(csv), ToLower(name), i + 1)
  {
    var l, e, n := ToLower(csv), ToLower(name), |name|;
    LowerBetweenCommas(name);
    if i >= 0 && i + n + 2 <= |csv| {
      LowerSlice(csv, i, i + n + 2);
      BetweenIff(l[i..i + n + 2], e);
      assert l[i..i + n + 2][1..n + 1] == l[i + 1..i + 1 + n];
    }
  }

  lemma LowerBetweenCommas(name: string)
    ensures ToLower("," + name + ",") == "," + ToLower(name) + ","
  {
    LowerConcat("," + name, ",");
    LowerConcat(",", name);
    assert ToLower(",") == ",";
  }

  lemma BetweenIff(s: string, e: string)
    requires |s| == |e| + 2
    ensures s == "," + e + "," <==> s[0] == ',' && s[1..|e| + 1] == e && s[|e| + 1] == ','
  {
    var t := "," + e + ",";
    assert t[0] == ',' && t[1..|e| + 1] == e && t[|e| + 1] == ',';
    assert s == [s[0]] + s[1..|e| + 1] + [s[|e| + 1]];
  }

  /** For a name without a comma, percent sign or underscore the search holds exactly when
      the column equals the name, case included, or is a list of two or more entries one of
      which is the name up to ASCII case. */
  lemma SearchIff(csv: string, name: string)
    requires Plain(name)
    ensures Search(csv, name) <==> csv == name || (',' in csv && ToLower(name) in Split(ToLower(csv)))
  {
    LowerCommas(csv);
    LowerCommas(name);
    SplitMember(ToLower(csv), ToLower(name));
    PatternsExact(csv, name);
    EntryNeedsComma(ToLower(csv), ToLower(name));
    PatternsAreEntries(csv, name);
  }

  /** The three patterns together find the entries that are not the whole column. */
  lemma PatternsAreEntries(csv: string, name: string)
    ensures
      || SitsAt(csv, name + ",", 0)
      || (exists i :: SitsAt(csv, "," + name + ",", i))
      || SitsAt(csv, "," + name, |csv| - |name| - 1)
      <==> |name| < |csv| && exists i :: EntryAt(ToLower(csv), ToLower(name), i)
  {
    var l, e := ToLower(csv), ToLower(name);
    PrefixEntry(csv, name);
    SuffixEntry(csv, name);
    forall i ensures SitsAt(csv, "," + name + ",", i) <==>
                     i >= 0 && i + |name| + 2 <= |csv| && EntryAt(l, e, i + 1) {
      MiddleEntry(csv, name, i);
    }
    if |name| < |csv| {
      if i :| EntryAt(l, e, i) {
        assert 0 < i && i + |e| < |l| ==> SitsAt(csv, "," + name + ",", i - 1);
      }
    }
  }

  lemma PatternsExact(csv: string, name: string)
    requires Plain(name)
    ensures Search(csv, name) <==>
            || csv == name
            || SitsAt(csv, name + ",", 0)
            || (exists i :: SitsAt(csv, "," + name + ",", i))
            || SitsAt(csv, "," + name, |csv| - |name| - 1)
  {
    assert name + ",%" == (name + ",") + "%";
    LikePrefix(csv, name + ",");
    assert "%," + (name + ",%") == "%" + (("," + name + ",") + "%");
    LikeMiddle(csv, "," + name + ",");
    assert "%," + name == "%" + ("," + name);
    LikeSuffix(csv, "," + name);
  }

  /** An entry is the whole list, or has a comma at one of its ends. */
  lemma EntryNeedsComma(s: string, e: string)
    requires ',' !in e
    ensures forall i | EntryAt(s, e, i) :: |e| < |s| <==> ',' in s
  {
    forall i | EntryAt(s, e, i) ensures |e| < |s| <==> ',' in s {
      if |e| < |s| {
        assert s[if i > 0 then i - 1 else |e|] == ',';
      } else {
        assert s[0..|s|] == s;
      }
    }
  }

  /** Over the normalised column of comma-free names, searching a normal plain name is
      membership in the set of names. */
  lemma SearchFindsExactly(sans: seq<string>, name: string)
    requires NoCommaNames(NormalSet(sans))
    requires Plain(name) && IsNormal(name) && name != ""
    ensures Search(Column(sans), name) <==> name in NormalSet(sans)
  {
    var csv, names := Column(sans), Normalized(sans);
    ColumnRoundTrip(sans);
    ColumnIsLower(sans);
    SearchIff(csv, name);
    assert name in names <==> name in Elems(names);
    if ',' !in csv {
      SplitPlain(csv);
      assert Split(csv) == [csv];
    }
    assert csv == name ==> Split(csv)[0] == name by {
      if csv == name {
        SplitPlain(csv);
      }
    }
    if NormalSet(sans) != {} {
      assert Split(csv) == names;
      assert csv == name ==> name in names;
    }
  }

  lemma ColumnIsLower(sans: seq<string>)
    ensures IsLower(Column(sans))
  {
    var names := Normalized(sans);
    forall x | x in names ensures IsLower(x) {
      assert x in Elems(names);
      InNormalSet(sans, x);
    }
    JoinIsLower(names);
  }

  lemma {:induction false} JoinIsLower(xs: seq<string>)
    requires forall x | x in xs :: IsLower(x)
    ensures IsLower(Join(xs))
  {
    if |xs| == 1 {
      assert xs[0] in xs;
    } else if |xs| > 1 {
      assert xs[0] in xs;
      JoinIsLower(xs[1..]);
      LowerConcat(xs[0], "," + Join(xs[1..]));
      LowerConcat(",", Join(xs[1..]));
      assert ToLower(",") == ",";
    }
  }

  /** `p` matches `w` character by character, wildcards standing for one character each. */
  predicate Covers(w: string, p: string) {
    |w| == |p| && forall i | 0 <= i < |w| :: p[i] in "%_" || LowerChar(p[i]) == LowerChar(w[i])
  }

  lemma {:induction false} LikeCovered(w: string, p: string, rest: string, tail: string)
    requires Covers(w, p) && Like(rest, tail)
    ensures Like(w + rest, p + tail)
  {
    if w == "" {
      assert w + rest == rest && p + tail == tail;
    } else {
      LikeCovered(w[1..], p[1..], rest, tail);
      assert (w + rest)[1..] == w[1..] + rest && (p + tail)[1..] == p[1..] + tail;
    }
  }

  lemma NormalPair(w: string)
    requires IsNormal(w) && w != "" && ',' !in w
    ensures NormalSet([w, w + "z"]) == {w, w + "z"}
    ensures Column([w, w + "z"]) == w + ("," + (w + "z"))
  {
    var v := w + "z";
    assert IsNormal(v) by {
      LowerConcat(w, "z");
      assert ToLower("z") == "z";
      assert v[0] == w[0] && v[|v| - 1] == 'z';
    }
    PairSet(w, v);
    PrefixLess(w, "z");
    PairColumn(w, v);
  }

  lemma PairSet(w: string, v: string)
    requires IsNormal(w) && IsNormal(v) && w != "" && v != ""
    ensures NormalSet([w, v]) == {w, v}
  {
    NormalNameIsNormal(w);
    NormalNameIsNormal(v);
    assert forall s :: s in [w, v] <==> s == w || s == v;
  }

  lemma PairColumn(w: string, v: string)
    requires NormalSet([w, v]) == {w, v} && Less(w, v)
    ensures Column([w, v]) == w + ("," + v)
  {
    assert Elems([w, v]) == {w, v};
    SortedUnique(Normalized([w, v]), [w, v]);
    JoinPair(w, v);
  }

  lemma JoinPair(w: string, v: string)
    ensures Join([w, v]) == w + ("," + v)
  {
    assert [w, v][1..] == [v];
    assert Join([v]) == v;
  }

  lemma {:induction false} PrefixLess(a: string, b: string)
    ensures Leq(a, a + b)
  {
    if a != "" {
      PrefixLess(a[1..], b);
      assert (a + b)[1..] == a[1..] + b;
    }
  }

  /** The search decides membership for every normalised column. */
  ghost predicate SearchIsExact(name: string) {
    forall sans: seq<string> :: NoCommaNames(NormalSet(sans)) ==>
      (Search(Column(sans), name) <==> name in NormalSet(sans))
  }

  /** Among normal names without a comma the search is exact for those without a wildcard
      character and for no others: an underscore or a percent sign also finds columns that
      hold a different character in its place. */
  lemma SearchExactIff(name: string)
    requires IsNormal(name) && name != "" && ',' !in name
    ensures SearchIsExact(name) <==> Literal(name)
  {
    if Literal(name) {
      forall sans: seq<string> | NoCommaNames(NormalSet(sans))
        ensures Search(Column(sans), name) <==> name in NormalSet(sans)
      {
        SearchFindsExactly(sans, name);
      }
    } else {
      var k :| 0 <= k < |name| && name[k] in "%_";
      WildcardOvermatches(name, k);
    }
  }

  lemma WildcardOvermatches(name: string, k: nat)
    requires IsNormal(name) && ',' !in name && k < |name| && name[k] in "%_"
    ensures !SearchIsExact(name)
  {
    var w := name[k := 'a'];
    WithoutWildcard(name, k);
    NormalPair(w);
    FoundByPrefix(w, name, w + "z");
    NotAMember(name, w, k);
    NotExact(name, [w, w + "z"]);
  }

  lemma NotExact(name: string, sans: seq<string>)
    requires NoCommaNames(NormalSet(sans)) && Search(Column(sans), name) && name !in NormalSet(sans)
    ensures !SearchIsExact(name)
  {
  }

  lemma FoundByPrefix(w: string, name: string, v: string)
    requires Covers(w, name)
    ensures Search(w + ("," + v), name)
  {
    PatternMatches(v);
    LikeCovered(w, name, "," + v, ",%");
  }

  lemma NotAMember(name: string, w: string, k: nat)
    requires |w| == |name| && k < |w| && w[k] != name[k]
    ensures name !in {w, w + "z"}
  {
  }

  lemma WithoutWildcard(name: string, k: nat)
    requires IsNormal(name) && ',' !in name && k < |name| && name[k] in "%_"
    ensures var w := name[k := 'a']; IsNormal(w) && ',' !in w && Covers(w, name)
  {
    var w := name[k := 'a'];
    assert forall i | 0 <= i < |w| :: ToLower(name)[i] == name[i];
    assert ToLower(w) == w;
    assert forall i | 0 <= i < |w| :: w[i] == 'a' || w[i] == name[i];
  }

  lemma PatternMatches(v: string)
    ensures Like("," + v, ",%")
  {
    LikePrefix("," + v, ",");
    assert "," + "%" == ",%";
    assert ("," + v)[0..1] == ",";
  }

  function LowerAll(xs: seq<string>): (r: seq<string>)
    ensures |r| == |xs| && forall i | 0 <= i < |xs| :: r[i] == ToLower(xs[i])
  {
    seq(|xs|, i requires 0 <= i < |xs| => ToLower(xs[i]))
  }

  lemma {:induction false} LowerJoin(xs: seq<string>)
    ensures ToLower(Join(xs)) == Join(LowerAll(xs))
  {
    if |xs| > 1 {
      LowerJoin(xs[1..]);
      LowerConcat(xs[0], "," + Join(xs[1..]));
      LowerConcat(",", Join(xs[1..]));
      assert ToLower(",") == ",";
      assert LowerAll(xs)[1..] == LowerAll(xs[1..]);
    }
  }

  lemma LowerAllCommaFree(xs: seq<string>)
    requires CommaFree(xs)
    ensures CommaFree(LowerAll(xs))
  {
    forall y | y in LowerAll(xs) ensures ',' !in y {
      var i :| 0 <= i < |xs| && LowerAll(xs)[i] == y;
      assert xs[i] in xs;
      LowerCommas(xs[i]);
    }
  }

  lemma {:induction false} CommaInJoin(xs: seq<string>)
    requires xs != [] && CommaFree(xs)
    ensures ',' in Join(xs) <==> |xs| > 1
  {
    if |xs| == 1 {
      assert xs[0] in xs;
    } else {
      assert Join(xs)[|xs[0]|] == ',';
    }
  }

  /** Private columns keep the case and the order of the names they were joined from. A plain name
      is found there exactly if it is the one entry, case included, or, among several entries,
      equals one up to ASCII case. */
  lemma JoinedSearchIff(xs: seq<string>, name: string)
    requires xs != [] && CommaFree(xs) && Plain(name)
    ensures Search(Join(xs), name) <==>
            if |xs| == 1 then xs[0] == name else exists x :: x in xs && ToLower(x) == ToLower(name)
  {
    var csv, lower := Join(xs), LowerAll(xs);
    SearchIff(csv, name);
    CommaInJoin(xs);
    LowerJoin(xs);
    LowerAllCommaFree(xs);
    SplitJoin(lower);
    if ToLower(name) in lower {
      var i :| 0 <= i < |xs| && lower[i] == ToLower(name);
      assert xs[i] in xs;
    }
    if x :| x in xs && ToLower(x) == ToLower(name) {
      var i :| 0 <= i < |xs| && xs[i] == x;
      assert lower[i] == ToLower(name);
    }
  }

  // ---- The overlap report ----

  /** The trimmed, lower-cased, non-blank parts of a comma list. */
  function NamesOf(parts: seq<string>): seq<string> {
    if parts == [] then []
    else
      var n := NormalName(parts[|parts| - 1]);
      NamesOf(parts[..|parts| - 1]) + if n == "" then [] else [n]
  }

  method SplitCsvNames(csv: string) returns (out: seq<string>)
    ensures out == NamesOf(Split(csv))
  {
    out := [];
    var parts := Split(csv);
    for i := 0 to |parts|
      invariant out == NamesOf(parts[..i])
    {
      assert parts[..i + 1][..i] == parts[..i];
      var part := NormalName(parts[i]);
      if part != "" {
        out := out + [part];
      }
    }
    assert parts[..|parts|] == parts;
  }

  lemma {:induction false} NamesOfExact(parts: seq<string>)
    ensures Elems(NamesOf(parts)) == NormalSet(parts)
  {
    if parts != [] {
      var rest, p := parts[..|parts| - 1], parts[|parts| - 1];
      assert parts == rest + [p];
      NamesOfExact(rest);
      NormalSnoc(rest, p);
      ElemsConcat(NamesOf(rest), if NormalName(p) == "" then [] else [NormalName(p)]);
    }
  }

  /** The names in one comma list, as a set. */
  function Listed(csv: string): set<string> {
    NormalSet(Split(csv))
  }

  /** The column of comma-free names lists those names. */
  lemma ListedColumn(sans: seq<string>)
    requires NoCommaNames(NormalSet(sans))
    ensures Listed(Column(sans)) == NormalSet(sans)
  {
    ColumnRoundTrip(sans);
    NormalSetFixed(sans);
    if NormalSet(sans) == {} {
      NormalNameIsNormal("");
      assert NormalName("") == "";
    }
  }

  datatype SanRecord = SanRecord(commonName: string, sansCsv: string, active: bool)

  datatype SanConflict = SanConflict(commonName: string, sans: seq<string>)

  function TargetSet(sans: seq<string>): set<string> {
    set s, n | s in sans && n in Listed(s) :: n
  }

  predicate Other(row: SanRecord, commonName: string, name: string) {
    row.active && row.commonName == name && name != commonName
  }

  /** The target names that active rows called `name` share. */
  function Shared(commonName: string, target: set<string>, rows: seq<SanRecord>, name: string): set<string> {
    set row, n | row in rows && n in Listed(row.sansCsv) && Other(row, commonName, name) && n in target :: n
  }

  function ConflictNames(commonName: string, target: set<string>, rows: seq<SanRecord>): set<string> {
    set row | row in rows && Shared(commonName, target, rows, row.commonName) != {} :: row.commonName
  }

  ghost function Report(commonName: string, sans: seq<string>, rows: seq<SanRecord>): seq<SanConflict> {
    var target := TargetSet(sans);
    var names := Sorted(ConflictNames(commonName, target, rows));
    seq(|names|, i requires 0 <= i < |names| => SanConflict(names[i], Sorted(Shared(commonName, target, rows, names[i]))))
  }

  /** A common name is reported exactly when an active row of that name, other than the
      target, shares a normalised name, and then with exactly the shared names, sorted. */
  lemma ReportExact(commonName: string, sans: seq<string>, rows: seq<SanRecord>, c: SanConflict)
    ensures c in Report(commonName, sans, rows) <==>
            && (exists row, n :: row in rows && Other(row, commonName, c.commonName) &&
                                 n in Listed(row.sansCsv) && n in TargetSet(sans))
            && c.sans == Sorted(Shared(commonName, TargetSet(sans), rows, c.commonName))
  {
    var target := TargetSet(sans);
    var report, names := Report(commonName, sans, rows), Sorted(ConflictNames(commonName, target, rows));
    var shared := Shared(commonName, target, rows, c.commonName);
    assert c.commonName in names <==> c.commonName in Elems(names);
    if row, n :| row in rows && Other(row, commonName, c.commonName) && n in Listed(row.sansCsv) && n in target {
      assert n in shared;
      assert c.commonName in ConflictNames(commonName, target, rows);
      var i :| 0 <= i < |names| && names[i] == c.commonName;
      assert report[i] == SanConflict(c.commonName, Sorted(shared));
    }
    if c in report {
      var i :| 0 <= i < |report| && report[i] == c;
      assert names[i] in Elems(names);
      var n :| n in shared;
    }
  }

  /** Any rearrangement or repetition of the rows, and any way of writing the same target
      names, gives the same report. */
  lemma ReportOrderIndependent(commonName: string, sans: seq<string>, sans': seq<string>,
                               rows: seq<SanRecord>, rows': seq<SanRecord>)
    requires forall row :: row in rows <==> row in rows'
    requires TargetSet(sans) == TargetSet(sans')
    ensures Report(commonName, sans, rows) == Report(commonName, sans', rows')
  {
    var target := TargetSet(sans);
    forall name ensures Shared(commonName, target, rows, name) == Shared(commonName, target, rows', name) {
    }
    assert ConflictNames(commonName, target, rows) == ConflictNames(commonName, target, rows');
  }

  /** `n` is one of the comma parts, trimmed and in lower case. */
  ghost predicate PartOf(csv: string, n: string) {
    n != "" && exists i :: 0 <= i < |Split(csv)| && ToLower(Trim(Split(csv)[i])) == n
  }

  /** An active row called `name`, which is not the target's name, and the target both list `n`. */
  ghost predicate BothList(commonName: string, sans: seq<string>, rows: seq<SanRecord>, name: string, n: string) {
    && name != commonName
    && (exists row :: row in rows && row.active && row.commonName == name && PartOf(row.sansCsv, n))
    && (exists s :: s in sans && PartOf(s, n))
  }

  lemma PartOfIff(csv: string, n: string)
    ensures n in Listed(csv) <==> PartOf(csv, n)
  {
    var parts := Split(csv);
    if p :| n != "" && p in parts && NormalName(p) == n {
      var i :| 0 <= i < |parts| && parts[i] == p;
    }
    if i :| n != "" && 0 <= i < |parts| && ToLower(Trim(parts[i])) == n {
      assert parts[i] in parts && NormalName(parts[i]) == n;
    }
  }

  lemma TargetIff(sans: seq<string>, n: string)
    ensures n in TargetSet(sans) <==> exists s :: s in sans && PartOf(s, n)
  {
    if n in TargetSet(sans) {
      var s :| s in sans && n in Listed(s);
      PartOfIff(s, n);
    }
    if s :| s in sans && PartOf(s, n) {
      PartOfIff(s, n);
    }
  }

  lemma BothListIff(commonName: string, sans: seq<string>, rows: seq<SanRecord>, name: string, n: string)
    ensures n in Shared(commonName, TargetSet(sans), rows, name) <==> BothList(commonName, sans, rows, name, n)
  {
    TargetIff(sans, n);
    if n in Shared(commonName, TargetSet(sans), rows, name) {
      var row :| row in rows && n in Listed(row.sansCsv) && Other(row, commonName, name);
      PartOfIff(row.sansCsv, n);
    }
    if BothList(commonName, sans, rows, name, n) {
      var row :| row in rows && row.active && row.commonName == name && PartOf(row.sansCsv, n);
      PartOfIff(row.sansCsv, n);
      assert Other(row, commonName, name);
    }
  }

  /** A common name is reported exactly when it shares a name with the target. */
  lemma ReportedIff(commonName: string, sans: seq<string>, rows: seq<SanRecord>, name: string)
    ensures (exists c :: c in Report(commonName, sans, rows) && c.commonName == name) <==>
            exists n :: BothList(commonName, sans, rows, name, n)
  {
    var shared := Shared(commonName, TargetSet(sans), rows, name);
    SharedWitness(commonName, sans, rows, name);
    if n :| BothList(commonName, sans, rows, name, n) {
      BothListIff(commonName, sans, rows, name, n);
      var full := SanConflict(name, Sorted(shared));
      ReportExact(commonName, sans, rows, full);
      assert full in Report(commonName, sans, rows);
    }
    if c :| c in Report(commonName, sans, rows) && c.commonName == name {
      ReportExact(commonName, sans, rows, c);
      var n :| n in shared;
      BothListIff(commonName, sans, rows, name, n);
    }
  }

  /** Under each common name stands exactly what is shared, in order. */
  lemma ReportedNames(commonName: string, sans: seq<string>, rows: seq<SanRecord>, c: SanConflict, n: string)
    requires c in Report(commonName, sans, rows)
    ensures StrictlySorted(c.sans)
    ensures n in c.sans <==> BothList(commonName, sans, rows, c.commonName, n)
  {
    ReportExact(commonName, sans, rows, c);
    BothListIff(commonName, sans, rows, c.commonName, n);
    assert n in c.sans <==> n in Elems(c.sans);
  }

  /** The common names stand in order, each once. */
  lemma ReportOrder(commonName: string, sans: seq<string>, rows: seq<SanRecord>, i: nat, j: nat)
    requires i < j < |Report(commonName, sans, rows)|
    ensures Less(Report(commonName, sans, rows)[i].commonName, Report(commonName, sans, rows)[j].commonName)
  {
    var names := Sorted(ConflictNames(commonName, TargetSet(sans), rows));
    assert Less(names[i], names[j]);
  }

  lemma SharedWitness(commonName: string, sans: seq<string>, rows: seq<SanRecord>, name: string)
    ensures Shared(commonName, TargetSet(sans), rows, name) != {} <==>
            exists row, n :: row in rows && Other(row, commonName, name) &&
                             n in Listed(row.sansCsv) && n in TargetSet(sans)
  {
    var shared := Shared(commonName, TargetSet(sans), rows, name);
    if row, n :| row in rows && Other(row, commonName, name) && n in Listed(row.sansCsv) && n in TargetSet(sans) {
      assert n in shared;
    }
    if shared != {} {
      var n :| n in shared;
    }
  }

  function Hits(names: seq<string>, target: set<string>): seq<string> {
    if names == [] then []
    else
      var n := names[|names| - 1];
      Hits(names[..|names| - 1], target) + if n in target then [n] else []
  }

  lemma {:induction false} HitsExact(names: seq<string>, target: set<string>)
    ensures Elems(Hits(names, target)) == Elems(names) * target
    ensures Hits(names, target) == [] <==> Elems(names) * target == {}
  {
    if names != [] {
      var n := names[|names| - 1];
      HitsExact(names[..|names| - 1], target);
      assert names == names[..|names| - 1] + [n];
      ElemsConcat(names[..|names| - 1], [n]);
      ElemsConcat(Hits(names[..|names| - 1], target), if n in target then [n] else []);
    }
    NoElems(Hits(names, target));
  }

  function Noted(m: map<string, seq<string>>, name: string, hits: seq<string>): map<string, seq<string>> {
    if hits == [] then m else m[name := (if name in m then m[name] else []) + hits]
  }

  ghost predicate Grouped(m: map<string, seq<string>>, commonName: string, target: set<string>, rows: seq<SanRecord>) {
    && (forall name :: name in m <==> Shared(commonName, target, rows, name) != {})
    && (forall name :: name in m ==> Elems(m[name]) == Shared(commonName, target, rows, name))
  }

  lemma SharedSnoc(commonName: string, target: set<string>, rows: seq<SanRecord>, row: SanRecord, name: string)
    ensures Shared(commonName, target, rows + [row], name) ==
            Shared(commonName, target, rows, name) +
            if Other(row, commonName, name) then Listed(row.sansCsv) * target else {}
  {
    assert forall r :: r in rows + [row] <==> r in rows || r == row;
  }

  lemma GroupedSkip(m: map<string, seq<string>>, commonName: string, target: set<string>, rows: seq<SanRecord>, row: SanRecord)
    requires Grouped(m, commonName, target, rows)
    requires row.commonName == commonName || !row.active
    ensures Grouped(m, commonName, target, rows + [row])
  {
    forall name ensures Shared(commonName, target, rows + [row], name) == Shared(commonName, target, rows, name) {
      SharedSnoc(commonName, target, rows, row, name);
    }
  }

  lemma GroupedNoted(m: map<string, seq<string>>, commonName: string, target: set<string>, rows: seq<SanRecord>,
                     row: SanRecord, hits: seq<string>)
    requires Grouped(m, commonName, target, rows)
    requires row.commonName != commonName && row.active
    requires Elems(hits) == Listed(row.sansCsv) * target
    ensures Grouped(Noted(m, row.commonName, hits), commonName, target, rows + [row])
  {
    var n := Noted(m, row.commonName, hits);
    forall name
      ensures name in n <==> Shared(commonName, target, rows + [row], name) != {}
      ensures name in n ==> Elems(n[name]) == Shared(commonName, target, rows + [row], name)
    {
      NotedRow(m, commonName, target, rows, row, hits, name);
    }
  }

  lemma NotedRow(m: map<string, seq<string>>, commonName: string, target: set<string>, rows: seq<SanRecord>,
                 row: SanRecord, hits: seq<string>, name: string)
    requires name in m <==> Shared(commonName, target, rows, name) != {}
    requires name in m ==> Elems(m[name]) == Shared(commonName, target, rows, name)
    requires row.commonName != commonName && row.active
    requires Elems(hits) == Listed(row.sansCsv) * target
    ensures
      var n := Noted(m, row.commonName, hits);
      && (name in n <==> Shared(commonName, target, rows + [row], name) != {})
      && (name in n ==> Elems(n[name]) == Shared(commonName, target, rows + [row], name))
  {
    NoElems(hits);
    SharedSnoc(commonName, target, rows, row, name);
    var old' := if name in m then m[name] else [];
    ElemsConcat(old', hits);
    NoElems(old' + hits);
  }

  lemma TargetSnoc(sans: seq<string>, s: string)
    ensures TargetSet(sans + [s]) == TargetSet(sans) + Listed(s)
  {
    assert forall x :: x in sans + [s] <==> x in sans || x == s;
  }

  method CollectTarget(sans: seq<string>) returns (target: set<string>)
    ensures target == TargetSet(sans)
  {
    target := {};
    for i := 0 to |sans|
      invariant target == TargetSet(sans[..i])
    {
      assert sans[..i + 1] == sans[..i] + [sans[i]];
      TargetSnoc(sans[..i], sans[i]);
      var names := SplitCsvNames(sans[i]);
      NamesOfExact(Split(sans[i]));
      target := AddNames(target, names);
    }
    assert sans[..|sans|] == sans;
  }

  method AddNames(base: set<string>, names: seq<string>) returns (r: set<string>)
    ensures r == base + Elems(names)
  {
    r := base;
    for j := 0 to |names|
      invariant r == base + Elems(names[..j])
    {
      assert names[..j + 1] == names[..j] + [names[j]];
      ElemsConcat(names[..j], [names[j]]);
      r := r + {names[j]};
    }
    assert names[..|names|] == names;
  }

  lemma NotedNext(m: map<string, seq<string>>, name: string, names: seq<string>, target: set<string>, j: nat)
    requires j < |names|
    ensures Noted(m, name, Hits(names[..j + 1], target)) ==
            Noted(Noted(m, name, Hits(names[..j], target)), name, if names[j] in target then [names[j]] else [])
  {
    assert names[..j + 1][..j] == names[..j];
    var base, hits := if name in m then m[name] else [], Hits(names[..j], target);
    if names[j] in target {
      assert base + (hits + [names[j]]) == (base + hits) + [names[j]];
      assert [] + [names[j]] == [names[j]];
      assert base + [] == base;
    } else {
      assert hits + [] == hits;
    }
  }

  method GroupShared(commonName: string, target: set<string>, rows: seq<SanRecord>)
    returns (conflicts: map<string, seq<string>>)
    ensures Grouped(conflicts, commonName, target, rows)
  {
    conflicts := map[];
    for i := 0 to |rows|
      invariant Grouped(conflicts, commonName, target, rows[..i])
    {
      var row := rows[i];
      assert rows[..i + 1] == rows[..i] + [row];
      if row.commonName == commonName || !row.active {
        GroupedSkip(conflicts, commonName, target, rows[..i], row);
        continue;
      }
      ghost var before := conflicts;
      var names := SplitCsvNames(row.sansCsv);
      for j := 0 to |names|
        invariant conflicts == Noted(before, row.commonName, Hits(names[..j], target))
      {
        NotedNext(before, row.commonName, names, target, j);
        if names[j] in target {
          conflicts := conflicts[row.commonName :=
            (if row.commonName in conflicts then conflicts[row.commonName] else []) + [names[j]]];
        }
      }
      assert names[..|names|] == names;
      NamesOfExact(Split(row.sansCsv));
      HitsExact(names, target);
      GroupedNoted(before, commonName, target, rows[..i], row, Hits(names, target));
    }
    assert rows[..|rows|] == rows;
  }

  lemma SharedIsClean(commonName: string, target: set<string>, rows: seq<SanRecord>, name: string, values: seq<string>)
    requires Elems(values) == Shared(commonName, target, rows, name)
    ensures CleanSet(values) == Shared(commonName, target, rows, name)
  {
    forall v | v in values ensures v != "" && Trimmed(v) {
      assert v in Elems(values);
      var row :| row in rows && v in Listed(row.sansCsv);
      InNormalSet(Split(row.sansCsv), v);
    }
    CleanSetOfClean(values);
  }

  method CollectSanConflicts(commonName: string, sans: seq<string>, rows: seq<SanRecord>) returns (out: seq<SanConflict>)
    ensures out == Report(commonName, sans, rows)
  {
    var target := CollectTarget(sans);
    var conflicts := GroupShared(commonName, target, rows);
    var names := SortedKeys(conflicts.Keys);
    GroupedKeys(conflicts, commonName, target, rows);
    forall name | name in names ensures GroupedAt(conflicts, commonName, target, rows, name) {
      assert name in Elems(names);
    }
    out := ListConflicts(commonName, target, rows, names, conflicts);
    ReportedAll(commonName, sans, rows, names, out);
  }

  ghost predicate GroupedAt(m: map<string, seq<string>>, commonName: string, target: set<string>, rows: seq<SanRecord>,
                            name: string)
  {
    name in m && Elems(m[name]) == Shared(commonName, target, rows, name)
  }

  method ListConflicts(commonName: string, ghost target: set<string>, ghost rows: seq<SanRecord>,
                       names: seq<string>, conflicts: map<string, seq<string>>)
    returns (out: seq<SanConflict>)
    requires forall name | name in names :: GroupedAt(conflicts, commonName, target, rows, name)
    ensures Reported(commonName, target, rows, names, out)
  {
    out := [];
    for i := 0 to |names|
      invariant Reported(commonName, target, rows, names[..i], out)
    {
      assert GroupedAt(conflicts, commonName, target, rows, names[i]);
      var conflict := ConflictOf(commonName, target, rows, names[i], conflicts[names[i]]);
      ReportedNext(commonName, target, rows, names[..i], out, names[i]);
      assert names[..i + 1] == names[..i] + [names[i]];
      out := out + [conflict];
    }
    assert names[..|names|] == names;
  }

  /** The report so far, one conflict for each of these names. */
  ghost predicate Reported(commonName: string, target: set<string>, rows: seq<SanRecord>, names: seq<string>,
                           out: seq<SanConflict>)
  {
    |out| == |names| && forall k | 0 <= k < |names| ::
      out[k] == SanConflict(names[k], Sorted(Shared(commonName, target, rows, names[k])))
  }

  lemma ReportedNext(commonName: string, target: set<string>, rows: seq<SanRecord>, names: seq<string>,
                     out: seq<SanConflict>, name: string)
    requires Reported(commonName, target, rows, names, out)
    ensures Reported(commonName, target, rows, names + [name],
                     out + [SanConflict(name, Sorted(Shared(commonName, target, rows, name)))])
  {
  }

  lemma ReportedAll(commonName: string, sans: seq<string>, rows: seq<SanRecord>, names: seq<string>, out: seq<SanConflict>)
    requires names == Sorted(ConflictNames(commonName, TargetSet(sans), rows))
    requires Reported(commonName, TargetSet(sans), rows, names, out)
    ensures out == Report(commonName, sans, rows)
  {
  }

  method ConflictOf(commonName: string, ghost target: set<string>, ghost rows: seq<SanRecord>, name: string,
                    values: seq<string>)
    returns (c: SanConflict)
    requires Elems(values) == Shared(commonName, target, rows, name)
    ensures c == SanConflict(name, Sorted(Shared(commonName, target, rows, name)))
  {
    SharedIsClean(commonName, target, rows, name, values);
    var shared := UniqueSorted(values);
    return SanConflict(name, shared);
  }

  lemma GroupedKeys(m: map<string, seq<string>>, commonName: string, target: set<string>, rows: seq<SanRecord>)
    requires Grouped(m, commonName, target, rows)
    ensures m.Keys == ConflictNames(commonName, target, rows)
  {
    forall name | name in m ensures name in ConflictNames(commonName, target, rows) {
      var n :| n in Shared(commonName, target, rows, name);
      var row :| row in rows && n in Listed(row.sansCsv) && Other(row, commonName, name);
      assert row.commonName == name;
    }
  }

  // ---- The names requested for a public certificate ----

  /** Appends the trimmed, non-blank values that are not yet there. */
  function AddAll(out: seq<string>, values: seq<string>): seq<string> {
    if values == [] then out
    else AddUnique(AddAll(out, values[..|values| - 1]), Trim(values[|values| - 1]))
  }

  function Roots(names: seq<string>): seq<string> {
    if names == [] then []
    else
      var d := names[|names| - 1];
      Roots(names[..|names| - 1]) + if HasPrefix(d, "*.") then [d[2..]] else []
  }

  function PublicNames(commonName: string, sans: seq<string>, includeRoot: bool): seq<string> {
    var base := AddAll([], [commonName] + AllParts(sans));
    if includeRoot then AddAll(base, Roots(base)) else base
  }

  method AddEach(out: seq<string>, values: seq<string>) returns (r: seq<string>)
    ensures r == AddAll(out, values)
  {
    r := out;
    for i := 0 to |values|
      invariant r == AddAll(out, values[..i])
    {
      assert values[..i + 1][..i] == values[..i];
      var v := Trim(values[i]);
      if v == "" || v in r {
        continue;
      }
      r := r + [v];
    }
    assert values[..|values|] == values;
  }

  lemma {:induction false} AddAllConcat(out: seq<string>, a: seq<string>, b: seq<string>)
    ensures AddAll(out, a + b) == AddAll(AddAll(out, a), b)
  {
    if b == [] {
      assert a + b == a;
    } else {
      var n := |b| - 1;
      assert (a + b)[..|a + b| - 1] == a + b[..n];
      AddAllConcat(out, a, b[..n]);
    }
  }

  lemma AllPartsNext(commonName: string, sans: seq<string>, i: nat)
    requires i < |sans|
    ensures AddAll([], [commonName] + AllParts(sans[..i + 1])) ==
            AddAll(AddAll([], [commonName] + AllParts(sans[..i])), Split(sans[i]))
  {
    var a, p := [commonName] + AllParts(sans[..i]), Split(sans[i]);
    PartsSnoc(sans, i);
    assert a + p == [commonName] + AllParts(sans[..i + 1]);
    AddAllConcat([], a, p);
  }

  lemma PartsSnoc(sans: seq<string>, i: nat)
    requires i < |sans|
    ensures AllParts(sans[..i + 1]) == AllParts(sans[..i]) + Split(sans[i])
  {
    assert sans[..i + 1][..i] == sans[..i];
  }

  method CollectRoots(names: seq<string>) returns (extra: seq<string>)
    ensures extra == Roots(names)
  {
    extra := [];
    for i := 0 to |names|
      invariant extra == Roots(names[..i])
    {
      assert names[..i + 1][..i] == names[..i];
      if HasPrefix(names[i], "*.") {
        extra := extra + [names[i][2..]];
      }
    }
    assert names[..|names|] == names;
  }

  method BuildPublicSanSet(commonName: string, sans: seq<string>, includeRoot: bool) returns (out: seq<string>)
    ensures out == PublicNames(commonName, sans, includeRoot)
  {
    out := AddEach([], [commonName]);
    assert [commonName] + AllParts(sans[..0]) == [commonName];
    for i := 0 to |sans|
      invariant out == AddAll([], [commonName] + AllParts(sans[..i]))
    {
      AllPartsNext(commonName, sans, i);
      out := AddEach(out, Split(sans[i]));
    }
    assert sans[..|sans|] == sans;
    if includeRoot {
      var extra := CollectRoots(out);
      out := AddEach(out, extra);
    }
  }

  lemma {:induction false} AddAllExact(out: seq<string>, values: seq<string>)
    ensures Elems(AddAll(out, values)) == Elems(out) + CleanSet(values)
    ensures NoRepeats(out) ==> NoRepeats(AddAll(out, values))
  {
    if values != [] {
      var rest, v := values[..|values| - 1], values[|values| - 1];
      assert values == rest + [v];
      AddAllExact(out, rest);
      CleanSetSnoc(rest, v);
    }
  }

  predicate NoRepeats(s: seq<string>) {
    forall i, j | 0 <= i < j < |s| :: s[i] != s[j]
  }

  lemma {:induction false} RootsExact(names: seq<string>, r: string)
    ensures r in Roots(names) <==> "*." + r in names
  {
    if names != [] {
      var d := names[|names| - 1];
      RootsExact(names[..|names| - 1], r);
      assert names == names[..|names| - 1] + [d];
      assert ("*." + r)[2..] == r;
      assert HasPrefix(d, "*.") ==> d == "*." + d[2..];
    }
  }

  /** The requested names hold no repeats, and a name is requested exactly when it is a
      part of the input, or the root of a wildcard part and roots are asked for. */
  lemma PublicNamesExact(commonName: string, sans: seq<string>, includeRoot: bool, name: string)
    ensures NoRepeats(PublicNames(commonName, sans, includeRoot))
    ensures
      var parts := CleanSet([commonName] + AllParts(sans));
      name in PublicNames(commonName, sans, includeRoot) <==>
        || name in parts
        || (includeRoot && name != "" && exists r :: Trim(r) == name && "*." + r in parts)
  {
    var all := [commonName] + AllParts(sans);
    var base := AddAll([], all);
    AddAllExact([], all);
    assert Elems(base) == CleanSet(all);
    if includeRoot {
      AddAllExact(base, Roots(base));
      assert name in PublicNames(commonName, sans, true) <==> name in Elems(AddAll(base, Roots(base)));
      forall r ensures r in Roots(base) <==> "*." + r in CleanSet(all) {
        RootsExact(base, r);
        assert "*." + r in base <==> "*." + r in Elems(base);
      }
      if name in CleanSet(Roots(base)) {
        var i :| 0 <= i < |Roots(base)| && Trim(Roots(base)[i]) == name;
        assert Roots(base)[i] in Roots(base);
      }
      if r :| name != "" && Trim(r) == name && "*." + r in CleanSet(all) {
        InCleanSet(Roots(base), r);
      }
    } else {
      assert name in base <==> name in Elems(base);
    }
  }

  lemma TrimKeepsOut(s: string, c: char)
    requires c !in s
    ensures c !in Trim(s)
  {
    var pre, post := TrimParts(s);
  }

  lemma {:induction false} SplitIsCommaFree(s: string)
    ensures CommaFree(Split(s))
  {
    if s != "" {
      SplitIsCommaFree(s[1..]);
      var rest := Split(s[1..]);
      assert rest[0] in rest;
    }
  }

  lemma {:induction false} PartsAreCommaFree(sans: seq<string>)
    ensures CommaFree(AllParts(sans))
  {
    if sans != [] {
      PartsAreCommaFree(sans[..|sans| - 1]);
      SplitIsCommaFree(sans[|sans| - 1]);
    }
  }

  lemma {:induction false} AddAllCommaFree(out: seq<string>, values: seq<string>)
    requires CommaFree(out) && CommaFree(values)
    ensures CommaFree(AddAll(out, values))
  {
    if values != [] {
      var v := values[|values| - 1];
      AddAllCommaFree(out, values[..|values| - 1]);
      assert v in values;
      TrimKeepsOut(v, ',');
    }
  }

  /** The names the issuance commands request hold no comma, given a common name without one:
      their other names are split at commas first. */
  lemma RequestedNamesCommaFree(commonName: string, sans: seq<string>, includeRoot: bool)
    requires ',' !in commonName
    ensures CommaFree(PublicNames(commonName, sans, includeRoot))
  {
    var all := [commonName] + AllParts(sans);
    PartsAreCommaFree(sans);
    AddAllCommaFree([], all);
    var base := AddAll([], all);
    forall r | r in Roots(base) ensures ',' !in r {
      RootsExact(base, r);
      assert ("*." + r)[2..] == r;
    }
    AddAllCommaFree(base, Roots(base));
  }

  lemma NormalOfCommaFree(sans: seq<string>)
    requires CommaFree(sans)
    ensures NoCommaNames(NormalSet(sans))
  {
    forall n | n in NormalSet(sans) ensures ',' !in n {
      var s :| s in sans && NormalName(s) == n;
      TrimKeepsOut(s, ',');
      LowerCommas(Trim(s));
    }
  }

  /** Between two requests under one comma-free common name, which is how the lookup is used, it is exact. */
  lemma RequestedLookupIsExact(hash: string -> string, commonName: string, a: seq<string>, b: seq<string>,
                               rootA: bool, rootB: bool)
    requires Injective(hash) && ',' !in commonName
    ensures
      var x, y := PublicNames(commonName, a, rootA), PublicNames(commonName, b, rootB);
      hash(Column(x)) == hash(Column(y)) <==> NormalSet(x) == NormalSet(y)
  {
    var x, y := PublicNames(commonName, a, rootA), PublicNames(commonName, b, rootB);
    RequestedNamesCommaFree(commonName, a, rootA);
    RequestedNamesCommaFree(commonName, b, rootB);
    NormalOfCommaFree(x);
    NormalOfCommaFree(y);
    HashLookupIsSetEquality(hash, x, y);
  }

  /** And a private column built from such a request is searched as `JoinedSearchIff` says. */
  lemma PrivateColumnSearchIff(commonName: string, sans: seq<string>, name: string)
    requires ',' !in commonName && Plain(name) && PublicNames(commonName, sans, false) != []
    ensures
      var xs := PublicNames(commonName, sans, false);
      Search(Join(xs), name) <==>
      if |xs| == 1 then xs[0] == name else exists x :: x in xs && ToLower(x) == ToLower(name)
  {
    RequestedNamesCommaFree(commonName, sans, false);
    JoinedSearchIff(PublicNames(commonName, sans, false), name);
  }
}
