/** The legacy `private_certs` migration: flat rows are grouped by common name, stably
    sorted by their legacy time and chained into lineages. */
module Migration {
  import opened Text
  import opened Tables
  import opened Lifecycle
  import opened Runs

  /** A legacy timestamp column: NULL or blank, or some text and the time it parses to. */
  datatype Stamp = Blank | Written(text: string, parsed: Option<int>)

  datatype Legacy = Legacy(id: Id, issuerCa: Id, commonName: string, sansCsv: string, issuer: string,
                           notAfter: Option<int>, createdAt: Stamp, updatedAt: Stamp, pem: string)

  function ParsedOf(s: Stamp): Option<int> {
    if s.Written? then s.parsed else None
  }

  /** `legacySortKey`: the update time, else the creation time, else the epoch. */
  function SortKey(r: Legacy): int {
    if ParsedOf(r.updatedAt).Some? then ParsedOf(r.updatedAt).value
    else if ParsedOf(r.createdAt).Some? then ParsedOf(r.createdAt).value
    else 0
  }

  // ------------------------------------------------------------- stable sort

  function InsertByKey(s: seq<Legacy>, r: Legacy): seq<Legacy> {
    if s == [] || SortKey(s[|s| - 1]) <= SortKey(r) then s + [r]
    else InsertByKey(s[..|s| - 1], r) + [s[|s| - 1]]
  }

  function SortByKey(rows: seq<Legacy>): seq<Legacy> {
    if rows == [] then [] else InsertByKey(SortByKey(rows[..|rows| - 1]), rows[|rows| - 1])
  }

  predicate InKeyOrder(s: seq<Legacy>) {
    forall i, j | 0 <= i < j < |s| :: SortKey(s[i]) <= SortKey(s[j])
  }

  /** The rows with one key, in list order. */
  function OfKey(s: seq<Legacy>, k: int): seq<Legacy> {
    if s == [] then []
    else OfKey(s[..|s| - 1], k) + (if SortKey(s[|s| - 1]) == k then [s[|s| - 1]] else [])
  }

  lemma {:induction false} InsertByKeyElements(s: seq<Legacy>, r: Legacy)
    ensures multiset(InsertByKey(s, r)) == multiset(s) + multiset{r}
    ensures forall x :: x in InsertByKey(s, r) <==> x in s || x == r
  {
    if s != [] && SortKey(s[|s| - 1]) > SortKey(r) {
      InsertByKeyElements(s[..|s| - 1], r);
      assert s == s[..|s| - 1] + [s[|s| - 1]];
    }
  }

  lemma OrderSnoc(s: seq<Legacy>, last: Legacy)
    requires InKeyOrder(s) && forall x | x in s :: SortKey(x) <= SortKey(last)
    ensures InKeyOrder(s + [last])
  {
  }

  lemma {:induction false} InsertByKeyOrder(s: seq<Legacy>, r: Legacy)
    requires InKeyOrder(s)
    ensures InKeyOrder(InsertByKey(s, r)) && multiset(InsertByKey(s, r)) == multiset(s) + multiset{r}
  {
    InsertByKeyElements(s, r);
    if s == [] || SortKey(s[|s| - 1]) <= SortKey(r) {
      OrderSnoc(s, r);
    } else {
      var init, last := s[..|s| - 1], s[|s| - 1];
      InsertByKeyOrder(init, r);
      InsertByKeyElements(init, r);
      OrderSnoc(InsertByKey(init, r), last);
    }
  }

  /** The sort orders by key and keeps every row. */
  lemma {:induction false} SortByKeyOrder(rows: seq<Legacy>)
    ensures InKeyOrder(SortByKey(rows)) && multiset(SortByKey(rows)) == multiset(rows)
  {
    if rows != [] {
      SortByKeyOrder(rows[..|rows| - 1]);
      InsertByKeyOrder(SortByKey(rows[..|rows| - 1]), rows[|rows| - 1]);
      assert rows == rows[..|rows| - 1] + [rows[|rows| - 1]];
    }
  }

  lemma {:induction false} InsertByKeyStable(s: seq<Legacy>, r: Legacy, k: int)
    requires InKeyOrder(s)
    ensures OfKey(InsertByKey(s, r), k) == OfKey(s + [r], k)
  {
    assert (s + [r])[..|s|] == s;
    if s != [] && SortKey(s[|s| - 1]) > SortKey(r) {
      var init, last := s[..|s| - 1], s[|s| - 1];
      InsertByKeyStable(init, r, k);
      assert (init + [r])[..|init|] == init;
      assert (InsertByKey(init, r) + [last])[..|InsertByKey(init, r)|] == InsertByKey(init, r);
      if SortKey(r) == k {
        assert OfKey(s, k) == OfKey(init, k);
      }
    }
  }

  /** Rows with equal keys keep the order in which they were read. */
  lemma {:induction false} SortByKeyStable(rows: seq<Legacy>, k: int)
    ensures OfKey(SortByKey(rows), k) == OfKey(rows, k)
  {
    if rows != [] {
      var init, last := rows[..|rows| - 1], rows[|rows| - 1];
      SortByKeyStable(init, k);
      SortByKeyOrder(init);
      InsertByKeyStable(SortByKey(init), last, k);
      assert (SortByKey(init) + [last])[..|SortByKey(init)|] == SortByKey(init);
    }
  }

  lemma OfKeySnoc(s: seq<Legacy>, r: Legacy, k: int)
    ensures OfKey(s + [r], k) == OfKey(s, k) + if SortKey(r) == k then [r] else []
  {
    assert (s + [r])[..|s|] == s;
  }

  lemma {:induction false} OfKeyElements(s: seq<Legacy>, k: int)
    ensures forall r :: r in OfKey(s, k) <==> r in s && SortKey(r) == k
  {
    if s != [] {
      OfKeyElements(s[..|s| - 1], k);
      assert s == s[..|s| - 1] + [s[|s| - 1]];
    }
  }

  /** The last row of an ordered list is the last of the rows with the largest key. */
  lemma LastOfKey(a: seq<Legacy>, b: seq<Legacy>)
    requires a != [] && InKeyOrder(a) && InKeyOrder(b) && forall k :: OfKey(a, k) == OfKey(b, k)
    ensures b != [] && SortKey(b[|b| - 1]) >= SortKey(a[|a| - 1])
  {
    var last := a[|a| - 1];
    OfKeyElements(a, SortKey(last));
    OfKeyElements(b, SortKey(last));
    assert last in OfKey(a, SortKey(last));
    var i :| 0 <= i < |b| && b[i] == last;
  }

  /** There is one way to sort stably: lists in key order that keep the rows of each key in
      the same order are equal. So the sort below is what any stable sort returns. */
  lemma {:induction false} StableSortUnique(a: seq<Legacy>, b: seq<Legacy>)
    requires InKeyOrder(a) && InKeyOrder(b)
    requires forall k :: OfKey(a, k) == OfKey(b, k)
    ensures a == b
    decreases |a|
  {
    if a == [] {
      if b != [] {
        LastOfKey(b, a);
      }
    } else {
      LastOfKey(a, b);
      LastOfKey(b, a);
      var x, y, p, q := a[|a| - 1], b[|b| - 1], a[..|a| - 1], b[..|b| - 1];
      assert a == p + [x] && b == q + [y];
      forall k ensures OfKey(p, k) == OfKey(q, k) && x == y {
        OfKeySnoc(p, x, SortKey(x));
        OfKeySnoc(q, y, SortKey(x));
        assert OfKey(a, SortKey(x))[|OfKey(p, SortKey(x))|] == x;
        assert x == y;
        OfKeySnoc(p, x, k);
        OfKeySnoc(q, y, k);
        SamePrefix(OfKey(p, k), OfKey(q, k), if SortKey(x) == k then [x] else []);
      }
      StableSortUnique(p, q);
    }
  }

  lemma SamePrefix<T>(p: seq<T>, q: seq<T>, tail: seq<T>)
    requires p + tail == q + tail
    ensures p == q
  {
    assert |p| == |q|;
    assert p == (p + tail)[..|p|] && q == (q + tail)[..|q|];
  }

  /** Whatever algorithm sorts `rows` stably by key, its result is `SortByKey(rows)`. */
  lemma AnyStableSort(rows: seq<Legacy>, sorted: seq<Legacy>)
    requires InKeyOrder(sorted) && forall k :: OfKey(sorted, k) == OfKey(rows, k)
    ensures sorted == SortByKey(rows)
  {
    SortByKeyOrder(rows);
    forall k ensures OfKey(sorted, k) == OfKey(SortByKey(rows), k) {
      SortByKeyStable(rows, k);
    }
    StableSortUnique(sorted, SortByKey(rows));
  }

  method SliceStable(rows: seq<Legacy>) returns (out: seq<Legacy>)
    ensures out == SortByKey(rows)
    ensures InKeyOrder(out) && forall k :: OfKey(out, k) == OfKey(rows, k)
  {
    out := [];
    for i := 0 to |rows|
      invariant out == SortByKey(rows[..i])
    {
      assert rows[..i + 1][..i] == rows[..i];
      out := InsertByKey(out, rows[i]);
    }
    assert rows[..|rows|] == rows;
    SortByKeyOrder(rows);
    forall k ensures OfKey(out, k) == OfKey(rows, k) {
      SortByKeyStable(rows, k);
    }
  }

  // ------------------------------------------------------------------ chains

  function Named(rows: seq<Legacy>, name: string): seq<Legacy> {
    if rows == [] then []
    else Named(rows[..|rows| - 1], name) + (if rows[|rows| - 1].commonName == name then [rows[|rows| - 1]] else [])
  }

  /** The lineage the migration builds for one common name, oldest first. */
  function Chain(rows: seq<Legacy>, name: string): seq<Legacy> {
    SortByKey(Named(rows, name))
  }

  /** Row `i` of a chain: the legacy payload, superseding its predecessor, active only at the end. */
  function ChainRow(chain: seq<Legacy>, i: nat): Leaf
    requires i < |chain|
  {
    var r := chain[i];
    Leaf(r.id, r.commonName, NullIfBlank(r.sansCsv), "", r.issuerCa, NullIfBlank(r.issuer),
         if i == |chain| - 1 then Active else Superseded,
         if i == 0 then "" else NullIfBlank(chain[i - 1].id), None, r.notAfter, r.pem)
  }

  /** `created_at` and `updated_at` are NOT NULL and a blank is written as NULL; the issuer must exist. */
  predicate Insertable(r: Legacy, cas: set<Id>) {
    r.createdAt.Written? && r.updatedAt.Written? && r.issuerCa in cas
  }

  ghost predicate DistinctIds(rows: seq<Legacy>) {
    forall i, j | 0 <= i < j < |rows| :: rows[i].id != rows[j].id
  }

  /** The whole result of a migration: one chain per name and nothing else. */
  ghost predicate Migrated(rows: seq<Legacy>, t: LeafTable) {
    && (forall id :: id in t <==> exists r :: r in rows && r.id == id)
    && (forall name, i {:trigger ChainRow(Chain(rows, name), i)} | 0 <= i < |Chain(rows, name)| ::
          Chain(rows, name)[i].id in t && t[Chain(rows, name)[i].id] == ChainRow(Chain(rows, name), i))
  }

  lemma {:induction false} NamedElements(rows: seq<Legacy>, name: string)
    ensures forall r :: r in Named(rows, name) <==> r in rows && r.commonName == name
    ensures multiset(Named(rows, name)) <= multiset(rows)
  {
    if rows != [] {
      var init, last := rows[..|rows| - 1], rows[|rows| - 1];
      NamedElements(init, name);
      assert rows == init + [last];
    }
  }

  lemma ChainElements(rows: seq<Legacy>, name: string)
    ensures forall r :: r in Chain(rows, name) <==> r in rows && r.commonName == name
    ensures multiset(Chain(rows, name)) <= multiset(rows)
    ensures InKeyOrder(Chain(rows, name))
  {
    NamedElements(rows, name);
    SortByKeyOrder(Named(rows, name));
    forall r ensures r in Chain(rows, name) <==> r in Named(rows, name) {
      assert r in Chain(rows, name) <==> r in multiset(Chain(rows, name));
    }
  }

  lemma TwicePresent<T>(s: seq<T>, i: nat, j: nat)
    requires i < j < |s| && s[i] == s[j]
    ensures multiset(s)[s[i]] >= 2
  {
    assert s == s[..j] + [s[j]] + s[j + 1..];
    assert s[i] in s[..j];
  }

  lemma {:induction false} OncePresent(rows: seq<Legacy>, r: Legacy)
    requires DistinctIds(rows)
    ensures multiset(rows)[r] <= 1
  {
    if rows != [] {
      var init, last := rows[..|rows| - 1], rows[|rows| - 1];
      assert rows == init + [last];
      OncePresent(init, r);
      if r == last {
        assert r !in init;
      }
    }
  }

  lemma SameId(rows: seq<Legacy>, a: Legacy, b: Legacy)
    requires DistinctIds(rows) && a in rows && b in rows && a.id == b.id
    ensures a == b
  {
  }

  lemma ChainDistinct(rows: seq<Legacy>, name: string)
    requires DistinctIds(rows)
    ensures DistinctIds(Chain(rows, name))
  {
    var c := Chain(rows, name);
    ChainElements(rows, name);
    forall i, j | 0 <= i < j < |c| ensures c[i].id != c[j].id {
      if c[i].id == c[j].id {
        assert c[i] in c && c[j] in c;
        SameId(rows, c[i], c[j]);
        TwicePresent(c, i, j);
        OncePresent(rows, c[i]);
      }
    }
  }

  // --------------------------------------------------------------- the loops

  /** The groups hold the rows of each name seen so far. */
  ghost predicate GroupsOf(rows: seq<Legacy>, names: seq<string>, grouped: map<string, seq<Legacy>>) {
    && (forall name :: name in names <==> name in grouped)
    && (forall name {:trigger Named(rows, name)} ::
          Named(rows, name) == if name in grouped then grouped[name] else [])
    && (forall name | name in grouped :: grouped[name] != [])
  }

  function AddTo(grouped: map<string, seq<Legacy>>, rec: Legacy): map<string, seq<Legacy>> {
    grouped[rec.commonName := (if rec.commonName in grouped then grouped[rec.commonName] else []) + [rec]]
  }

  lemma GroupsNext(rows: seq<Legacy>, names: seq<string>, grouped: map<string, seq<Legacy>>, rec: Legacy)
    requires GroupsOf(rows, names, grouped)
    ensures GroupsOf(rows + [rec], if rec.commonName in grouped then names else names + [rec.commonName], AddTo(grouped, rec))
  {
    forall name ensures Named(rows + [rec], name) ==
                        Named(rows, name) + if rec.commonName == name then [rec] else [] {
      assert (rows + [rec])[..|rows|] == rows;
    }
  }

  lemma GroupNames(rows: seq<Legacy>, names: seq<string>, grouped: map<string, seq<Legacy>>)
    requires GroupsOf(rows, names, grouped)
    ensures forall name :: name in names <==> exists r :: r in rows && r.commonName == name
  {
    forall name ensures name in names <==> exists r :: r in rows && r.commonName == name {
      NamedElements(rows, name);
      var named := Named(rows, name);
      assert named != [] ==> named[0] in named;
    }
  }

  lemma GroupsStep(rows: seq<Legacy>, i: nat, names: seq<string>, grouped: map<string, seq<Legacy>>)
    requires i < |rows| && Distinct(names) && GroupsOf(rows[..i], names, grouped)
    ensures
      var name := rows[i].commonName;
      var more := if name in grouped then names else names + [name];
      Distinct(more) && GroupsOf(rows[..i + 1], more, AddTo(grouped, rows[i]))
  {
    GroupsNext(rows[..i], names, grouped, rows[i]);
    assert rows[..i + 1] == rows[..i] + [rows[i]];
    if rows[i].commonName !in grouped {
      DistinctSnoc(names, rows[i].commonName);
    }
  }

  /** Groups rows by common name, remembering names in first-seen order. */
  method Group(rows: seq<Legacy>) returns (names: seq<string>, grouped: map<string, seq<Legacy>>)
    ensures Distinct(names) && GroupsOf(rows, names, grouped)
  {
    names, grouped := [], map[];
    for i := 0 to |rows|
      invariant Distinct(names)
      invariant GroupsOf(rows[..i], names, grouped)
    {
      var rec := rows[i];
      GroupsStep(rows, i, names, grouped);
      names := if rec.commonName in grouped then names else names + [rec.commonName];
      grouped := AddTo(grouped, rec);
    }
    assert rows[..|rows|] == rows;
  }

  predicate Distinct(names: seq<string>) {
    forall i, j | 0 <= i < j < |names| :: names[i] != names[j]
  }

  lemma DistinctSnoc(names: seq<string>, name: string)
    requires Distinct(names) && name !in names
    ensures Distinct(names + [name])
  {
  }

  function IdsOf(rows: seq<Legacy>): set<Id> {
    set r | r in rows :: r.id
  }

  /** The first `i` rows of the chain are in place. */
  ghost predicate Placed(chain: seq<Legacy>, i: nat, t: LeafTable)
    requires i <= |chain|
  {
    forall k {:trigger ChainRow(chain, k)} | 0 <= k < i :: chain[k].id in t && t[chain[k].id] == ChainRow(chain, k)
  }

  /** The insert of one migrated row: primary key, NOT NULL columns, foreign keys. The unique index does not exist yet. */
  function InsertMigrated(t: LeafTable, rec: Legacy, row: Leaf, cas: set<Id>): Outcome {
    if row.id in t then Failed(DuplicateId)
    else if rec.createdAt.Blank? || rec.updatedAt.Blank? then Failed(NotNull)
    else if MissingLink(row.supersedes, t.Keys, row.id) || row.issuerCa !in cas then Failed(MissingReference)
    else Done
  }

  /** The first `i` rows of a chain have been added to `t`. */
  ghost predicate Extended(chain: seq<Legacy>, i: nat, t: LeafTable, u: LeafTable)
    requires i <= |chain|
  {
    && u.Keys == t.Keys + IdsOf(chain[..i])
    && (forall id | id in t :: u[id] == t[id])
    && Placed(chain, i, u)
  }

  lemma IdsSnoc(rows: seq<Legacy>, r: Legacy)
    ensures IdsOf(rows + [r]) == IdsOf(rows) + {r.id}
  {
    assert forall x :: x in rows + [r] <==> x in rows || x == r;
  }

  lemma PlacedNext(chain: seq<Legacy>, i: nat, u: LeafTable)
    requires DistinctIds(chain) && i < |chain| && Placed(chain, i, u)
    ensures Placed(chain, i + 1, u[chain[i].id := ChainRow(chain, i)])
  {
    var w := u[chain[i].id := ChainRow(chain, i)];
    forall k | 0 <= k < i + 1 ensures chain[k].id in w && w[chain[k].id] == ChainRow(chain, k) {
      if k < i {
        assert ChainRow(chain, k) == u[chain[k].id];
        assert chain[k].id != chain[i].id;
      }
    }
  }

  lemma ExtendedNext(chain: seq<Legacy>, i: nat, t: LeafTable, u: LeafTable)
    requires DistinctIds(chain) && i < |chain| && IdsOf(chain) !! t.Keys && Extended(chain, i, t, u)
    ensures Extended(chain, i + 1, t, u[chain[i].id := ChainRow(chain, i)])
  {
    var r := chain[i];
    assert chain[..i + 1] == chain[..i] + [r];
    IdsSnoc(chain[..i], r);
    assert r in chain && r.id in IdsOf(chain);
    PlacedNext(chain, i, u);
  }

  /** Inserts one chain, carrying the previous id; stops at the first row the schema refuses. */
  method InsertChain(t: LeafTable, chain: seq<Legacy>, cas: set<Id>) returns (r: Outcome, u: LeafTable)
    requires DistinctIds(chain) && IdsOf(chain) !! t.Keys
    ensures r == Done <==> forall k | 0 <= k < |chain| :: Insertable(chain[k], cas)
    ensures r == Done ==> Extended(chain, |chain|, t, u) && u.Keys == t.Keys + IdsOf(chain)
  {
    u := t;
    var prev := "";
    for i := 0 to |chain|
      invariant Extended(chain, i, t, u)
      invariant prev == if i == 0 then "" else chain[i - 1].id
      invariant forall k | 0 <= k < i :: Insertable(chain[k], cas)
    {
      var rec := chain[i];
      var status := if i == |chain| - 1 then Active else Superseded;
      var row := Leaf(rec.id, rec.commonName, NullIfBlank(rec.sansCsv), "", rec.issuerCa, NullIfBlank(rec.issuer),
                      status, NullIfBlank(prev), None, rec.notAfter, rec.pem);
      assert row == ChainRow(chain, i);
      InsertMigratedIff(t, u, chain, i, cas);
      ExtendedNext(chain, i, t, u);
      r := InsertMigrated(u, rec, row, cas);
      if r != Done { return r, t; }
      u := u[row.id := row];
      prev := rec.id;
    }
    assert chain[..|chain|] == chain;
    r := Done;
  }

  /** With its predecessor in place, a row of a chain is refused only for its own columns. */
  lemma InsertMigratedIff(t: LeafTable, u: LeafTable, chain: seq<Legacy>, i: nat, cas: set<Id>)
    requires DistinctIds(chain) && i < |chain| && IdsOf(chain) !! t.Keys && u.Keys == t.Keys + IdsOf(chain[..i])
    ensures InsertMigrated(u, chain[i], ChainRow(chain, i), cas) == Done <==> Insertable(chain[i], cas)
    ensures IdsOf(chain[..i + 1]) == IdsOf(chain[..i]) + {chain[i].id}
    ensures chain[i].id !in t
    ensures forall k | 0 <= k < i :: chain[k].id != chain[i].id
  {
    assert chain[..i + 1] == chain[..i] + [chain[i]];
    IdsSnoc(chain[..i], chain[i]);
    assert chain[i] in chain && chain[i].id in IdsOf(chain);
    if i > 0 {
      assert chain[i - 1] in chain[..i];
      assert NullIfBlank(chain[i - 1].id) != "" ==> chain[i - 1].id in u;
    }
  }

  /** The chains of the first `n` names are in place, and nothing else. */
  ghost predicate Built(rows: seq<Legacy>, names: seq<string>, n: nat, cas: set<Id>, t: LeafTable)
    requires n <= |names|
  {
    && t.Keys == NamedIds(rows, names[..n])
    && (forall m {:trigger names[m]} | 0 <= m < n ::
          Placed(Chain(rows, names[m]), |Chain(rows, names[m])|, t) && ChainInsertable(rows, names[m], cas))
  }

  lemma BuiltNext(rows: seq<Legacy>, names: seq<string>, n: nat, cas: set<Id>, t: LeafTable, u: LeafTable)
    requires n < |names| && Built(rows, names, n, cas, t)
    requires NamedIds(rows, names[..n + 1]) == NamedIds(rows, names[..n]) + IdsOf(Chain(rows, names[n]))
    requires var c := Chain(rows, names[n]); Extended(c, |c|, t, u) && u.Keys == t.Keys + IdsOf(c)
    requires ChainInsertable(rows, names[n], cas)
    ensures Built(rows, names, n + 1, cas, u)
  {
    forall m | 0 <= m < n ensures Placed(Chain(rows, names[m]), |Chain(rows, names[m])|, u) {
      StaysPlaced(Chain(rows, names[m]), t, u);
    }
  }

  /** All or nothing: every chain is inserted, or the transaction rolls back. The legacy rows
      come from a table keyed by id, so their ids are distinct. */
  method MigratePrivateCerts(rows: seq<Legacy>, cas: set<Id>) returns (r: Outcome, t: LeafTable)
    requires DistinctIds(rows)
    ensures r == Done <==> forall row | row in rows :: Insertable(row, cas)
    ensures r == Done ==> Migrated(rows, t)
    ensures r != Done ==> t == map[]
  {
    var names, grouped := Group(rows);
    GroupNames(rows, names, grouped);
    t := map[];
    for n := 0 to |names|
      invariant Built(rows, names, n, cas, t)
    {
      var name := names[n];
      assert name in names;
      var recs := SliceStable(grouped[name]);
      assert recs == Chain(rows, name);
      ChainDistinct(rows, name);
      NextName(rows, names, n);
      var u;
      r, u := InsertChain(t, recs, cas);
      if r != Done {
        RefusedRow(rows, name, cas);
        return r, map[];
      }
      BuiltNext(rows, names, n, cas, t, u);
      t := u;
    }
    assert names[..|names|] == names;
    AllChains(rows, names, cas, t);
    r := Done;
  }

  predicate ChainInsertable(rows: seq<Legacy>, name: string, cas: set<Id>) {
    forall k | 0 <= k < |Chain(rows, name)| :: Insertable(Chain(rows, name)[k], cas)
  }

  ghost function NamedIds(rows: seq<Legacy>, names: seq<string>): set<Id> {
    set r | r in rows && r.commonName in names :: r.id
  }

  lemma NextName(rows: seq<Legacy>, names: seq<string>, n: nat)
    requires DistinctIds(rows) && n < |names|
    requires Distinct(names)
    ensures NamedIds(rows, names[..n]) !! IdsOf(Chain(rows, names[n]))
    ensures NamedIds(rows, names[..n + 1]) == NamedIds(rows, names[..n]) + IdsOf(Chain(rows, names[n]))
  {
    var chain := Chain(rows, names[n]);
    ChainElements(rows, names[n]);
    assert names[..n + 1] == names[..n] + [names[n]];
    forall id | id in NamedIds(rows, names[..n]) ensures id !in IdsOf(chain) {
      var a :| a in rows && a.commonName in names[..n] && a.id == id;
      forall b | b in chain ensures b.id != id {
        if b.id == id {
          SameId(rows, a, b);
        }
      }
    }
    forall id | id in NamedIds(rows, names[..n + 1]) ensures id in NamedIds(rows, names[..n]) + IdsOf(chain) {
      var a :| a in rows && a.commonName in names[..n + 1] && a.id == id;
      assert a.commonName == names[n] ==> a in chain;
    }
    forall id | id in IdsOf(chain) ensures id in NamedIds(rows, names[..n + 1]) {
      var b :| b in chain && b.id == id;
      assert b in rows && b.commonName in names[..n + 1];
    }
  }

  lemma StaysPlaced(chain: seq<Legacy>, t: LeafTable, u: LeafTable)
    requires Placed(chain, |chain|, t) && t.Keys <= u.Keys && forall id | id in t :: u[id] == t[id]
    ensures Placed(chain, |chain|, u)
  {
    forall k | 0 <= k < |chain| ensures chain[k].id in u && u[chain[k].id] == ChainRow(chain, k) {
      assert ChainRow(chain, k).id == chain[k].id;
    }
  }

  lemma RefusedRow(rows: seq<Legacy>, name: string, cas: set<Id>)
    requires !ChainInsertable(rows, name, cas)
    ensures exists row :: row in rows && !Insertable(row, cas)
  {
    var k :| 0 <= k < |Chain(rows, name)| && !Insertable(Chain(rows, name)[k], cas);
    ChainElements(rows, name);
    assert Chain(rows, name)[k] in Chain(rows, name);
  }

  lemma AllChains(rows: seq<Legacy>, names: seq<string>, cas: set<Id>, t: LeafTable)
    requires forall name :: name in names <==> exists r :: r in rows && r.commonName == name
    requires t.Keys == NamedIds(rows, names)
    requires forall m {:trigger names[m]} | 0 <= m < |names| ::
      Placed(Chain(rows, names[m]), |Chain(rows, names[m])|, t) && ChainInsertable(rows, names[m], cas)
    ensures Migrated(rows, t)
    ensures forall row | row in rows :: Insertable(row, cas)
  {
    forall row | row in rows ensures Insertable(row, cas) {
      var chain := Chain(rows, row.commonName);
      ChainElements(rows, row.commonName);
      var k :| 0 <= k < |chain| && chain[k] == row;
      assert row.commonName in names;
      var m :| 0 <= m < |names| && names[m] == row.commonName;
      assert ChainInsertable(rows, names[m], cas);
    }
    forall name, i | 0 <= i < |Chain(rows, name)|
      ensures Chain(rows, name)[i].id in t && t[Chain(rows, name)[i].id] == ChainRow(Chain(rows, name), i)
    {
      ChainElements(rows, name);
      assert Chain(rows, name)[i] in Chain(rows, name);
      assert name in names;
      var m :| 0 <= m < |names| && names[m] == name;
      assert Placed(Chain(rows, names[m]), |Chain(rows, names[m])|, t);
    }
    forall id ensures id in t <==> exists r :: r in rows && r.id == id {
      if r :| r in rows && r.id == id {
        assert r.commonName in names;
      }
    }
  }

  // ------------------------------------------- the result is a sound store

  /** The chain and the place in it of a migrated row. */
  lemma Locate(rows: seq<Legacy>, t: LeafTable, id: Id) returns (name: string, i: nat)
    requires Migrated(rows, t) && id in t
    ensures i < |Chain(rows, name)| && Chain(rows, name)[i].id == id && t[id] == ChainRow(Chain(rows, name), i)
    ensures t[id].commonName == name && t[id].id == id
    ensures i > 0 ==> Chain(rows, name)[i - 1].id in t
                      && t[Chain(rows, name)[i - 1].id] == ChainRow(Chain(rows, name), i - 1)
  {
    var r :| r in rows && r.id == id;
    name := r.commonName;
    ChainElements(rows, name);
    i :| 0 <= i < |Chain(rows, name)| && Chain(rows, name)[i] == r;
    assert t[r.id] == ChainRow(Chain(rows, name), i);
    if i > 0 {
      assert ChainRow(Chain(rows, name), i - 1).status == Superseded;
    }
  }

  /** A row that supersedes another follows it in their chain. */
  lemma Predecessor(rows: seq<Legacy>, t: LeafTable, id: Id) returns (name: string, i: nat)
    requires Migrated(rows, t) && id in t && t[id].supersedes != ""
    ensures 0 < i < |Chain(rows, name)| && t[id].commonName == name
    ensures Chain(rows, name)[i].id == id && Chain(rows, name)[i - 1].id == t[id].supersedes
    ensures t[id].supersedes in t && t[t[id].supersedes].commonName == name && t[t[id].supersedes].status == Superseded
  {
    name, i := Locate(rows, t, id);
    ChainElements(rows, name);
    if i > 0 {
      assert Chain(rows, name)[i - 1] in Chain(rows, name);
    }
  }

  ghost predicate PlaceOf(rows: seq<Legacy>, t: LeafTable, id: Id, i: nat)
    requires id in t
  {
    i < |Chain(rows, t[id].commonName)| && Chain(rows, t[id].commonName)[i].id == id
  }

  lemma PlaceUnique(rows: seq<Legacy>, t: LeafTable, id: Id, i: nat, j: nat)
    requires DistinctIds(rows) && id in t && PlaceOf(rows, t, id, i) && PlaceOf(rows, t, id, j)
    ensures i == j
  {
    ChainDistinct(rows, t[id].commonName);
  }

  lemma HasPlace(rows: seq<Legacy>, t: LeafTable, id: Id)
    requires Migrated(rows, t) && id in t
    ensures exists i: nat :: PlaceOf(rows, t, id, i)
  {
    var name, i := Locate(rows, t, id);
    assert PlaceOf(rows, t, id, i);
  }

  lemma MigratedRanked(rows: seq<Legacy>, t: LeafTable)
    requires Migrated(rows, t) && DistinctIds(rows)
    ensures exists rank: map<Id, nat> :: Ranked(t, rank)
  {
    forall id | id in t ensures exists i: nat :: PlaceOf(rows, t, id, i) {
      HasPlace(rows, t, id);
    }
    var rank: map<Id, nat> := map id | id in t :: var i: nat :| PlaceOf(rows, t, id, i); i;
    forall id | id in t
      ensures id in rank
      ensures t[id].supersedes != "" ==> t[id].supersedes in rank && rank[t[id].supersedes] < rank[id]
    {
      if t[id].supersedes != "" {
        var name, i := Predecessor(rows, t, id);
        PlaceUnique(rows, t, id, i, rank[id]);
        PlaceUnique(rows, t, t[id].supersedes, i - 1, rank[t[id].supersedes]);
      }
    }
    assert Ranked(t, rank);
  }

  lemma MigratedOneActive(rows: seq<Legacy>, t: LeafTable)
    requires Migrated(rows, t)
    ensures OneActiveLeaf(t)
  {
    forall a, b | a in t && b in t && ActiveLeaf(t, a, t[b].commonName) && ActiveLeaf(t, b, t[b].commonName)
      ensures a == b
    {
      var n, i := Locate(rows, t, a);
      var m, j := Locate(rows, t, b);
    }
  }

  lemma MigratedRow(rows: seq<Legacy>, t: LeafTable, id: Id)
    requires Migrated(rows, t) && id in t
    ensures LeafRowOk(t, id)
  {
    var name, i := Locate(rows, t, id);
    if t[id].supersedes != "" {
      name, i := Predecessor(rows, t, id);
    }
  }

  lemma MigratedOnce(rows: seq<Legacy>, t: LeafTable)
    requires Migrated(rows, t) && DistinctIds(rows)
    ensures SupersededOnce(t)
  {
    forall a, b | Siblings(t, a, b) ensures a == b {
      var n, i := Predecessor(rows, t, a);
      var m, j := Predecessor(rows, t, b);
      PlaceUnique(rows, t, t[a].supersedes, i - 1, j - 1);
    }
  }

  /** The migrated table satisfies the lifecycle invariant, and every row keeps its issuer reference. */
  lemma MigratedInv(rows: seq<Legacy>, t: LeafTable, cas: set<Id>)
    requires DistinctIds(rows) && Migrated(rows, t)
    requires forall r | r in rows :: r.id != "" && Insertable(r, cas)
    ensures LeafInv(t) && IssuersIn(t, cas)
  {
    forall id | id in t
      ensures t[id].id == id && id != "" && (t[id].supersedes != "" ==> t[id].supersedes in t)
      ensures t[id].issuerCa in cas && LeafRowOk(t, id)
    {
      var name, i := Locate(rows, t, id);
      ChainElements(rows, name);
      assert Chain(rows, name)[i] in Chain(rows, name);
      MigratedRow(rows, t, id);
    }
    MigratedOneActive(rows, t);
    MigratedOnce(rows, t);
    MigratedRanked(rows, t);
  }

  /** The predecessor's id as the chain row writes it. */
  function LinkAt(c: seq<Legacy>, i: nat): Id
    requires i < |c|
  {
    if i == 0 then "" else c[i - 1].id
  }

  /** The columns of a legacy row that the migration carries over. */
  predicate CarriesOver(r: Legacy, row: Leaf) {
    && row.id == r.id && row.commonName == r.commonName && row.sansCsv == NullIfBlank(r.sansCsv)
    && row.issuerCa == r.issuerCa && row.issuer == NullIfBlank(r.issuer)
    && row.notAfter == r.notAfter && row.pem == r.pem && row.revokedAt == None
  }

  /** What `Migrated` says of one name, spelled out: a chain over exactly its rows, in
      non-decreasing key order, each row superseding the one before, only the last active. */
  lemma MigratedChain(rows: seq<Legacy>, t: LeafTable, name: string)
    requires DistinctIds(rows) && Migrated(rows, t) && forall r | r in rows :: !IsBlank(r.id)
    ensures var c := Chain(rows, name);
      && InKeyOrder(c) && (forall r :: r in c <==> r in rows && r.commonName == name)
      && (forall i {:trigger LinkAt(c, i)} | 0 <= i < |c| ::
            c[i].id in t && CarriesOver(c[i], t[c[i].id])
            && (t[c[i].id].status == Active <==> i == |c| - 1)
            && t[c[i].id].supersedes == LinkAt(c, i))
  {
    var c := Chain(rows, name);
    ChainElements(rows, name);
    forall i | 0 <= i < |c|
      ensures c[i].id in t && t[c[i].id] == ChainRow(c, i) && ChainRow(c, i).supersedes == LinkAt(c, i)
    {
      assert ChainRow(Chain(rows, name), i) == ChainRow(c, i);
      assert i > 0 ==> c[i - 1] in c;
    }
  }

  /** A legacy row without an update time sinks the whole migration, although the sort has a fallback for it. */
  lemma BlankTimeIsRefused(row: Legacy, cas: set<Id>)
    requires row.updatedAt.Blank? && ParsedOf(row.createdAt).Some?
    ensures SortKey(row) == ParsedOf(row.createdAt).value && !Insertable(row, cas)
  {
  }

  // ----------------------------------------------- the order, in legacy times

  /** The update time orders a row when it parses; a blank or unparsable one leaves that to the
      creation time, and a row with neither counts as written at the epoch. */
  lemma KeyReads(r: Legacy)
    ensures r.updatedAt.Written? && r.updatedAt.parsed.Some? ==> SortKey(r) == r.updatedAt.parsed.value
    ensures (r.updatedAt.Blank? || r.updatedAt.parsed.None?) && r.createdAt.Written? && r.createdAt.parsed.Some? ==>
            SortKey(r) == r.createdAt.parsed.value
    ensures (r.updatedAt.Blank? || r.updatedAt.parsed.None?) && (r.createdAt.Blank? || r.createdAt.parsed.None?) ==>
            SortKey(r) == 0
  {
  }

  predicate UpdatedAt(r: Legacy, time: int) {
    r.updatedAt.Written? && r.updatedAt.parsed == Some(time)
  }

  lemma ChainLink(rows: seq<Legacy>, t: LeafTable, name: string, i: nat)
    requires DistinctIds(rows) && Migrated(rows, t) && forall r | r in rows :: !IsBlank(r.id)
    requires i < |Chain(rows, name)|
    ensures
      var c := Chain(rows, name);
      c[i].id in t && t[c[i].id].supersedes == if i == 0 then "" else c[i - 1].id
  {
    MigratedChain(rows, t, name);
    assert LinkAt(Chain(rows, name), i) == if i == 0 then "" else Chain(rows, name)[i - 1].id;
  }

  /** Following the links of a migrated row walks its chain down to the oldest. */
  lemma {:induction false} FollowChain(rows: seq<Legacy>, t: LeafTable, name: string, i: nat, n: nat)
    requires DistinctIds(rows) && Migrated(rows, t) && forall r | r in rows :: !IsBlank(r.id)
    requires i < |Chain(rows, name)|
    ensures Follow(t, Chain(rows, name)[i].id, n) == if n <= i then Some(Chain(rows, name)[i - n].id) else None
    decreases n
  {
    ChainLink(rows, t, name, i);
    if n > 0 {
      if i > 0 {
        FollowChain(rows, t, name, i - 1, n - 1);
      } else {
        NoBlankId(rows, t);
      }
    }
  }

  lemma NoBlankId(rows: seq<Legacy>, t: LeafTable)
    requires Migrated(rows, t) && forall r | r in rows :: !IsBlank(r.id)
    ensures "" !in t
  {
    assert IsBlank("");
  }

  lemma ChainIndex(rows: seq<Legacy>, a: Legacy) returns (i: nat)
    requires a in rows
    ensures i < |Chain(rows, a.commonName)| && Chain(rows, a.commonName)[i] == a
  {
    ChainElements(rows, a.commonName);
    assert a in Chain(rows, a.commonName);
    i :| 0 <= i < |Chain(rows, a.commonName)| && Chain(rows, a.commonName)[i] == a;
  }

  lemma KeyOrdersIndex(c: seq<Legacy>, i: nat, j: nat)
    requires InKeyOrder(c) && i < |c| && j < |c| && SortKey(c[i]) < SortKey(c[j])
    ensures i < j
  {
  }

  /** Of two rows of one name the one updated later descends from the one updated earlier, and
      never the other way round, whatever their creation times. */
  lemma LaterUpdateDescends(rows: seq<Legacy>, t: LeafTable, a: Legacy, b: Legacy, x: int, y: int)
    requires DistinctIds(rows) && Migrated(rows, t) && forall r | r in rows :: !IsBlank(r.id)
    requires a in rows && b in rows && a.commonName == b.commonName
    requires UpdatedAt(a, x) && UpdatedAt(b, y) && x < y
    ensures exists n: nat :: n > 0 && Follow(t, b.id, n) == Some(a.id)
    ensures forall n: nat :: Follow(t, a.id, n) != Some(b.id)
  {
    var name := a.commonName;
    var c := Chain(rows, name);
    var i := ChainIndex(rows, a);
    var j := ChainIndex(rows, b);
    KeyReads(a);
    KeyReads(b);
    ChainElements(rows, name);
    ChainDistinct(rows, name);
    KeyOrdersIndex(c, i, j);
    FollowChain(rows, t, name, j, j - i);
    forall n: nat ensures Follow(t, a.id, n) != Some(b.id) {
      FollowChain(rows, t, name, i, n);
      if n <= i {
        assert c[i - n].id != c[j].id;
      }
    }
  }

  /** The last row read among those of one name and key. */
  ghost predicate ReadLast(rows: seq<Legacy>, i: nat) {
    i < |rows| && forall j | i < j < |rows| ::
      rows[j].commonName != rows[i].commonName || SortKey(rows[j]) != SortKey(rows[i])
  }

  lemma {:induction false} LastOfKeyReadLast(rows: seq<Legacy>, name: string, k: int) returns (i: nat)
    requires OfKey(Named(rows, name), k) != []
    ensures ReadLast(rows, i) && rows[i].commonName == name && SortKey(rows[i]) == k
    ensures var o := OfKey(Named(rows, name), k); o[|o| - 1] == rows[i]
  {
    var n := |rows| - 1;
    var init, last := rows[..n], rows[n];
    assert rows == init + [last];
    if last.commonName == name {
      OfKeySnoc(Named(init, name), last, k);
    } else {
      assert Named(rows, name) == Named(init, name) + [] == Named(init, name);
    }
    if last.commonName == name && SortKey(last) == k {
      i := n;
    } else {
      i := LastOfKeyReadLast(init, name, k);
    }
  }

  lemma ActiveIsLast(rows: seq<Legacy>, t: LeafTable, r: Legacy)
    requires DistinctIds(rows) && Migrated(rows, t) && forall x | x in rows :: !IsBlank(x.id)
    requires r in rows && t[r.id].status == Active
    ensures var c := Chain(rows, r.commonName); c != [] && c[|c| - 1] == r
  {
    var i := ChainIndex(rows, r);
    MigratedChain(rows, t, r.commonName);
    assert LinkAt(Chain(rows, r.commonName), i) == t[r.id].supersedes;
  }

  lemma {:induction false} LastKeyRow(s: seq<Legacy>)
    requires s != []
    ensures var o := OfKey(s, SortKey(s[|s| - 1])); o != [] && o[|o| - 1] == s[|s| - 1]
  {
  }

  lemma ActiveHasGreatestKey(rows: seq<Legacy>, t: LeafTable, r: Legacy, x: Legacy)
    requires DistinctIds(rows) && Migrated(rows, t) && forall y | y in rows :: !IsBlank(y.id)
    requires r in rows && t[r.id].status == Active && x in rows && x.commonName == r.commonName
    ensures SortKey(x) <= SortKey(r)
  {
    var c := Chain(rows, r.commonName);
    ActiveIsLast(rows, t, r);
    ChainElements(rows, r.commonName);
    var k := ChainIndex(rows, x);
    assert k < |c| - 1 ==> SortKey(c[k]) <= SortKey(c[|c| - 1]);
  }

  lemma ActiveReadLast(rows: seq<Legacy>, t: LeafTable, r: Legacy) returns (i: nat)
    requires DistinctIds(rows) && Migrated(rows, t) && forall y | y in rows :: !IsBlank(y.id)
    requires r in rows && t[r.id].status == Active
    ensures ReadLast(rows, i) && rows[i] == r
  {
    ActiveIsLast(rows, t, r);
    SortByKeyStable(Named(rows, r.commonName), SortKey(r));
    LastKeyRow(Chain(rows, r.commonName));
    i := LastOfKeyReadLast(rows, r.commonName, SortKey(r));
  }

  /** When every update time of a name parses, the row left active is the one updated last, and
      among several updated then the one that was read last. */
  lemma ActiveIsLatest(rows: seq<Legacy>, t: LeafTable, r: Legacy, time: int)
    requires DistinctIds(rows) && Migrated(rows, t) && forall x | x in rows :: !IsBlank(x.id)
    requires r in rows && t[r.id].status == Active && UpdatedAt(r, time)
    requires forall x | x in rows && x.commonName == r.commonName :: exists u: int :: UpdatedAt(x, u)
    ensures forall x, u | x in rows && x.commonName == r.commonName && UpdatedAt(x, u) :: u <= time
    ensures exists i: nat :: i < |rows| && rows[i] == r && forall j | i < j < |rows| ::
      !(rows[j].commonName == r.commonName && UpdatedAt(rows[j], time))
  {
    KeyReads(r);
    forall x, u | x in rows && x.commonName == r.commonName && UpdatedAt(x, u) ensures u <= time {
      KeyReads(x);
      ActiveHasGreatestKey(rows, t, r, x);
    }
    var i := ActiveReadLast(rows, t, r);
    forall j | i < j < |rows| ensures !(rows[j].commonName == r.commonName && UpdatedAt(rows[j], time)) {
      KeyReads(rows[j]);
    }
  }

  /** Each name has such a row. */
  lemma NameHasActive(rows: seq<Legacy>, t: LeafTable, x: Legacy)
    requires DistinctIds(rows) && Migrated(rows, t) && forall r | r in rows :: !IsBlank(r.id)
    requires x in rows
    ensures exists r :: r in rows && r.commonName == x.commonName && r.id in t && t[r.id].status == Active
  {
    var c := Chain(rows, x.commonName);
    var i := ChainIndex(rows, x);
    MigratedChain(rows, t, x.commonName);
    var last := c[|c| - 1];
    assert LinkAt(c, |c| - 1) == t[last.id].supersedes;
    assert last in c;
  }

  /** The migration goes through exactly when no legacy row lacks a creation or update time and
      each names an existing intermediate. */
  lemma InsertableIff(row: Legacy, cas: set<Id>)
    ensures Insertable(row, cas) <==> row.createdAt != Blank && row.updatedAt != Blank && row.issuerCa in cas
  {
  }
}
