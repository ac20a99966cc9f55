/** The part of a pandas DataFrame the pipeline relies on: an ordered list of column
    names, one column of possibly-missing numbers per name, and a common row count.
    `Table` is a frame as a value (what `df.dropna()` or `df.copy()` hands on);
    `DataFrame` is a frame that `df[name] = values` updates in place. */
module Frame {
  import opened Wrappers

  type Cell = Option<real>
  type Column = seq<Cell>

  predicate Distinct(names: seq<string>) {
    forall i, j :: 0 <= i < j < |names| ==> names[i] != names[j]
  }

  /** Two lists without repeats and without a common name join into one. */
  lemma DistinctAppend(a: seq<string>, b: seq<string>)
    requires Distinct(a) && Distinct(b)
    requires forall i, j :: 0 <= i < |a| && 0 <= j < |b| ==> a[i] != b[j]
    ensures Distinct(a + b)
  {
    forall i, j | 0 <= i < j < |a + b| ensures (a + b)[i] != (a + b)[j] {
      if j < |a| {
        assert (a + b)[i] == a[i] && (a + b)[j] == a[j];
      } else if i < |a| {
        assert (a + b)[i] == a[i] && (a + b)[j] == b[j - |a|];
      } else {
        assert (a + b)[i] == b[i - |a|] && (a + b)[j] == b[j - |a|];
      }
    }
  }

  datatype Table = Table(names: seq<string>, cols: map<string, Column>, height: nat) {

    /** Every named column exists, has `height` cells, and no name repeats. */
    ghost predicate Valid() {
      && Distinct(names)
      && (forall c :: c in cols <==> c in names)
      && (forall k :: 0 <= k < |names| ==> |cols[names[k]]| == height)
    }

    /** `df[name] = values`: replaces an existing column in place or appends a new one. */
    function With(name: string, values: Column): (t: Table)
      requires Valid() && |values| == height
      ensures t.Valid() && t.height == height
      ensures t.names == if name in names then names else names + [name]
      ensures t.cols == cols[name := values]
    {
      Table(if name in names then names else names + [name], cols[name := values], height)
    }

    /** The cell in column `c`, row `r`; missing when there is no such cell. */
    function At(c: string, r: int): Cell {
      if c in cols && 0 <= r < |cols[c]| then cols[c][r] else None
    }

    /** Row `r` has a value in every column. */
    predicate Complete(r: nat)
      requires Valid() && r < height
    {
      forall k :: 0 <= k < |names| ==> cols[names[k]][r].Some?
    }

    /** The complete rows among the first `k`, in ascending order. */
    function KeptRows(k: nat): (rs: seq<nat>)
      requires Valid() && k <= height
      ensures |rs| <= k
      ensures forall j :: 0 <= j < |rs| ==> rs[j] < k && Complete(rs[j])
      ensures forall i, j :: 0 <= i < j < |rs| ==> rs[i] < rs[j]
      ensures forall r :: 0 <= r < k && Complete(r) ==> r in rs
    {
      if k == 0 then []
      else
        var rs := KeptRows(k - 1);
        if Complete(k - 1) then rs + [k - 1] else rs
    }

    /** The row numbers that `dropna()` keeps. */
    function Kept(): seq<nat>
      requires Valid()
    {
      KeptRows(height)
    }

    /** The values of row `r` in the columns `fs`, in that order (`df[fs].iloc[r]`). */
    function Row(r: nat, fs: seq<string>): (x: seq<Cell>)
      ensures |x| == |fs|
      ensures forall k :: 0 <= k < |fs| ==> x[k] == At(fs[k], r)
    {
      seq(|fs|, k requires 0 <= k < |fs| => At(fs[k], r))
    }
  }

  /** Columns of `height` cells each. */
  predicate Fit(vs: seq<Column>, height: nat) {
    forall k :: 0 <= k < |vs| ==> |vs[k]| == height
  }

  /** Every column of `vs` has a value at row `r`. */
  predicate AllSome(vs: seq<Column>, r: nat) {
    forall k :: 0 <= k < |vs| ==> r < |vs[k]| && vs[k][r].Some?
  }

  lemma AllSomeAppend(a: seq<Column>, b: seq<Column>, r: nat)
    ensures AllSome(a + b, r) <==> AllSome(a, r) && AllSome(b, r)
  {
    if AllSome(a + b, r) {
      forall k | 0 <= k < |a| ensures r < |a[k]| && a[k][r].Some? {
        assert (a + b)[k] == a[k];
      }
      forall k | 0 <= k < |b| ensures r < |b[k]| && b[k][r].Some? {
        assert (a + b)[|a| + k] == b[k];
      }
    }
    if AllSome(a, r) && AllSome(b, r) {
      forall k | 0 <= k < |a + b| ensures r < |(a + b)[k]| && (a + b)[k][r].Some? {
        if k < |a| {
          assert (a + b)[k] == a[k];
        } else {
          assert (a + b)[k] == b[k - |a|];
        }
      }
    }
  }

  /** `df[ns[0]] = vs[0]; ...; df[ns[m-1]] = vs[m-1]`, in that order. */
  function WithAll(t: Table, ns: seq<string>, vs: seq<Column>): (u: Table)
    requires t.Valid() && |ns| == |vs| && Fit(vs, t.height)
    ensures u.Valid() && u.height == t.height
    decreases |ns|
  {
    if ns == [] then t
    else WithAll(t, ns[..|ns| - 1], vs[..|vs| - 1]).With(ns[|ns| - 1], vs[|vs| - 1])
  }

  /** Writing the first `k + 1` columns is writing the first `k`, then column `k`. */
  lemma WithAllStep(t: Table, ns: seq<string>, vs: seq<Column>, k: nat)
    requires t.Valid() && |ns| == |vs| && Fit(vs, t.height) && k < |ns|
    ensures WithAll(t, ns[..k + 1], vs[..k + 1]) == WithAll(t, ns[..k], vs[..k]).With(ns[k], vs[k])
  {
    assert ns[..k + 1][..k] == ns[..k];
    assert vs[..k + 1][..k] == vs[..k];
  }

  /** Writing `a` then `b` is writing `a + b`. */
  lemma {:induction false} WithAllAppend(t: Table, a: seq<string>, va: seq<Column>, b: seq<string>, vb: seq<Column>)
    requires t.Valid() && |a| == |va| && |b| == |vb| && Fit(va, t.height) && Fit(vb, t.height)
    ensures WithAll(t, a + b, va + vb) == WithAll(WithAll(t, a, va), b, vb)
    decreases |b|
  {
    if b == [] {
      assert a + b == a && va + vb == va;
    } else {
      assert (a + b)[..|a + b| - 1] == a + b[..|b| - 1];
      assert (va + vb)[..|va + vb| - 1] == va + vb[..|vb| - 1];
      WithAllAppend(t, a, va, b[..|b| - 1], vb[..|vb| - 1]);
    }
  }

  /** After writing distinct names, name `ns[k]` holds `vs[k]`. */
  lemma {:induction false} WithAllWritten(t: Table, ns: seq<string>, vs: seq<Column>, k: nat)
    requires t.Valid() && |ns| == |vs| && Fit(vs, t.height) && Distinct(ns) && k < |ns|
    ensures ns[k] in WithAll(t, ns, vs).names
    ensures WithAll(t, ns, vs).cols[ns[k]] == vs[k]
    decreases |ns|
  {
    if k < |ns| - 1 {
      WithAllWritten(t, ns[..|ns| - 1], vs[..|vs| - 1], k);
    }
  }

  /** A name that is not written keeps its column (or its absence). */
  lemma {:induction false} WithAllOther(t: Table, ns: seq<string>, vs: seq<Column>, c: string)
    requires t.Valid() && |ns| == |vs| && Fit(vs, t.height) && c !in ns
    ensures c in WithAll(t, ns, vs).names <==> c in t.names
    ensures c in t.names ==> WithAll(t, ns, vs).cols[c] == t.cols[c]
    decreases |ns|
  {
    if ns != [] {
      assert ns == ns[..|ns| - 1] + [ns[|ns| - 1]];
      WithAllOther(t, ns[..|ns| - 1], vs[..|vs| - 1], c);
    }
  }

  lemma AppendLast<T>(a: seq<T>, b: seq<T>)
    requires b != []
    ensures a + b[..|b| - 1] + [b[|b| - 1]] == a + b
  {
    assert b == b[..|b| - 1] + [b[|b| - 1]];
  }

  /** The name list after `df[n] = ...` for each `n` of `ns` in turn: a name already
      present keeps its place, a new one goes to the end. */
  function Appended(names: seq<string>, ns: seq<string>): seq<string>
    decreases |ns|
  {
    if ns == [] then names
    else
      var p := Appended(names, ns[..|ns| - 1]);
      if ns[|ns| - 1] in p then p else p + [ns[|ns| - 1]]
  }

  lemma {:induction false} WithAllAppended(t: Table, ns: seq<string>, vs: seq<Column>)
    requires t.Valid() && |ns| == |vs| && Fit(vs, t.height)
    ensures WithAll(t, ns, vs).names == Appended(t.names, ns)
    decreases |ns|
  {
    if ns != [] {
      WithAllAppended(t, ns[..|ns| - 1], vs[..|vs| - 1]);
    }
  }

  /** Distinct names that are all new are appended in writing order. */
  lemma {:induction false} AppendedNew(names: seq<string>, ns: seq<string>)
    requires Distinct(ns)
    requires forall k :: 0 <= k < |ns| ==> ns[k] !in names
    ensures Appended(names, ns) == names + ns
    decreases |ns|
  {
    if ns != [] {
      var m := |ns| - 1;
      var init := ns[..m];
      AppendedNew(names, init);
      assert ns[m] !in init by {
        assert forall k :: 0 <= k < m ==> init[k] == ns[k] != ns[m];
      }
      AppendLast(names, ns);
    }
  }

  /** Writing distinct names that are all new appends them in writing order. */
  lemma WithAllNames(t: Table, ns: seq<string>, vs: seq<Column>)
    requires t.Valid() && |ns| == |vs| && Fit(vs, t.height) && Distinct(ns)
    requires forall k :: 0 <= k < |ns| ==> ns[k] !in t.names
    ensures WithAll(t, ns, vs).names == t.names + ns
  {
    WithAllAppended(t, ns, vs);
    AppendedNew(t.names, ns);
  }

  /** After writing new, distinct names, a row is complete exactly when it was
      complete before and every written column has a value there. */
  lemma CompleteAfterWithAll(t: Table, ns: seq<string>, vs: seq<Column>, r: nat)
    requires t.Valid() && |ns| == |vs| && Fit(vs, t.height) && Distinct(ns) && r < t.height
    requires forall k :: 0 <= k < |ns| ==> ns[k] !in t.names
    ensures WithAll(t, ns, vs).Complete(r) <==>
      t.Complete(r) && AllSome(vs, r)
  {
    var u := WithAll(t, ns, vs);
    WithAllNames(t, ns, vs);
    assert u.names == t.names + ns;
    forall k | 0 <= k < |t.names| ensures u.cols[t.names[k]] == t.cols[t.names[k]] {
      WithAllOther(t, ns, vs, t.names[k]);
    }
    forall k | 0 <= k < |ns| ensures u.cols[ns[k]] == vs[k] {
      WithAllWritten(t, ns, vs, k);
    }
    CompleteSplit(u, t, ns, vs, r);
  }

  /** The completeness argument once the columns of `u` are known. */
  lemma CompleteSplit(u: Table, t: Table, ns: seq<string>, vs: seq<Column>, r: nat)
    requires u.Valid() && t.Valid() && |ns| == |vs| && Fit(vs, t.height) && r < t.height == u.height
    requires u.names == t.names + ns
    requires forall k :: 0 <= k < |t.names| ==> u.cols[t.names[k]] == t.cols[t.names[k]]
    requires forall k :: 0 <= k < |ns| ==> u.cols[ns[k]] == vs[k]
    ensures u.Complete(r) <==> t.Complete(r) && AllSome(vs, r)
  {
    var n := |t.names|;
    if u.Complete(r) {
      forall k | 0 <= k < n ensures t.cols[t.names[k]][r].Some? {
        assert u.names[k] == t.names[k];
      }
      forall k | 0 <= k < |vs| ensures vs[k][r].Some? {
        assert u.names[n + k] == ns[k];
      }
    }
    if t.Complete(r) && AllSome(vs, r) {
      forall k | 0 <= k < |u.names| ensures u.cols[u.names[k]][r].Some? {
        if k < n {
          assert u.names[k] == t.names[k];
        } else {
          assert u.names[k] == ns[k - n];
        }
      }
    }
  }

  /** The cells of `col` at the rows `rs`, in the order of `rs`. */
  function Pick(col: Column, rs: seq<nat>): (p: Column)
    requires forall j :: 0 <= j < |rs| ==> rs[j] < |col|
    ensures |p| == |rs|
    ensures forall j :: 0 <= j < |rs| ==> p[j] == col[rs[j]]
  {
    seq(|rs|, j requires 0 <= j < |rs| => col[rs[j]])
  }

  /** `df.dropna()`: keeps the rows with no missing cell, in their original order. */
  function DropNa(t: Table): (d: Table)
    requires t.Valid()
    ensures d.Valid() && d.names == t.names && d.height == |t.Kept()|
  {
    var rs := t.Kept();
    var d := Table(t.names, map c | c in t.cols :: Pick(t.cols[c], rs), |rs|);
    assert forall k :: 0 <= k < |t.names| ==> |d.cols[t.names[k]]| == |rs| by {
      forall k | 0 <= k < |t.names| ensures |d.cols[t.names[k]]| == |rs| {
        assert t.names[k] in t.cols;
      }
    }
    d
  }

  /** What `dropna()` promises: a row survives iff it is complete, survivors keep their
      order and their values, and no missing cell is left. */
  lemma DropNaRows(t: Table)
    requires t.Valid()
    ensures forall r :: 0 <= r < t.height ==> (r in t.Kept() <==> t.Complete(r))
    ensures forall i, j :: 0 <= i < j < |t.Kept()| ==> t.Kept()[i] < t.Kept()[j]
    ensures forall c, j :: c in t.names && 0 <= j < DropNa(t).height ==>
              DropNa(t).cols[c][j] == t.cols[c][t.Kept()[j]]
    ensures forall c, j :: c in t.names && 0 <= j < DropNa(t).height ==>
              DropNa(t).cols[c][j].Some?
  {
    var rs, d := t.Kept(), DropNa(t);
    forall c, j | c in t.names && 0 <= j < d.height
      ensures d.cols[c][j] == t.cols[c][rs[j]] && d.cols[c][j].Some?
    {
      var k :| 0 <= k < |t.names| && t.names[k] == c;
      assert t.Complete(rs[j]);
    }
  }

  /** The last row `dropna()` keeps is at or after every complete row. */
  lemma KeptLast(t: Table, r: nat)
    requires t.Valid() && r < t.height && t.Complete(r)
    ensures |t.Kept()| > 0 && r <= t.Kept()[|t.Kept()| - 1]
  {
    var rs := t.Kept();
    var j :| 0 <= j < |rs| && rs[j] == r;
    if j < |rs| - 1 {
      assert rs[j] < rs[|rs| - 1];
    }
  }

  /** When the last kept row has a successor, it is the second-to-last row exactly
      when that row is complete. */
  lemma KeptLastBeforeEnd(t: Table)
    requires t.Valid() && |t.Kept()| > 0 && t.Kept()[|t.Kept()| - 1] + 1 < t.height
    ensures t.height >= 2 && t.Kept()[|t.Kept()| - 1] <= t.height - 2
    ensures t.Complete(t.height - 2) ==> t.Kept()[|t.Kept()| - 1] == t.height - 2
  {
    if t.Complete(t.height - 2) {
      KeptLast(t, t.height - 2);
    }
  }

  /** `[c for c in names if c not in excluded]`: the names outside `excluded`, in
      their original order. */
  function Without(names: seq<string>, excluded: seq<string>): (fs: seq<string>)
    ensures |fs| <= |names|
  {
    if names == [] then []
    else
      var rest := Without(names[1..], excluded);
      if names[0] in excluded then rest else [names[0]] + rest
  }

  /** The filter keeps exactly the names outside `excluded`, and keeps distinct names
      distinct. */
  lemma {:induction false} WithoutMembers(names: seq<string>, excluded: seq<string>)
    ensures forall c :: c in Without(names, excluded) <==> c in names && c !in excluded
    ensures Distinct(names) ==> Distinct(Without(names, excluded))
  {
    if names != [] {
      var rest := Without(names[1..], excluded);
      WithoutMembers(names[1..], excluded);
      assert names == [names[0]] + names[1..];
      if Distinct(names) {
        assert Distinct(names[1..]);
        assert names[0] !in names[1..];
      }
    }
  }

  /** The filter works name by name, so it keeps the relative order of the names. */
  lemma {:induction false} WithoutAppend(a: seq<string>, b: seq<string>, excluded: seq<string>)
    ensures Without(a + b, excluded) == Without(a, excluded) + Without(b, excluded)
  {
    if a != [] {
      assert (a + b)[1..] == a[1..] + b;
      WithoutAppend(a[1..], b, excluded);
    } else {
      assert a + b == b;
    }
  }

  /** A filter that excludes none of the names returns them all. */
  lemma {:induction false} WithoutNone(names: seq<string>, excluded: seq<string>)
    requires forall k :: 0 <= k < |names| ==> names[k] !in excluded
    ensures Without(names, excluded) == names
  {
    if names != [] {
      WithoutNone(names[1..], excluded);
    }
  }

  /** A filter that excludes every name returns none. */
  lemma {:induction false} WithoutAll(names: seq<string>, excluded: seq<string>)
    requires forall k :: 0 <= k < |names| ==> names[k] in excluded
    ensures Without(names, excluded) == []
  {
    if names != [] {
      WithoutAll(names[1..], excluded);
    }
  }

  /** One cell of `dropna()`'s result: row `j` of column `c` is the cell of the `j`-th
      kept row, and it is present. */
  lemma DropNaCell(t: Table, c: string, j: nat)
    requires t.Valid() && c in t.names && j < DropNa(t).height
    ensures c in DropNa(t).cols && j < |DropNa(t).cols[c]|
    ensures DropNa(t).cols[c][j] == t.cols[c][t.Kept()[j]]
    ensures DropNa(t).cols[c][j].Some?
  {
    var k :| 0 <= k < |t.names| && t.names[k] == c;
    assert t.Complete(t.Kept()[j]);
  }

  /** A frame whose fields `df[name] = values` updates in place. */
  class DataFrame {
    var names: seq<string>
    var cols: map<string, Column>
    const height: nat

    function Snapshot(): Table
      reads this
    {
      Table(names, cols, height)
    }

    ghost predicate Valid()
      reads this
    {
      Snapshot().Valid()
    }

    constructor (t: Table)
      requires t.Valid()
      ensures Valid() && Snapshot() == t
    {
      names, cols, height := t.names, t.cols, t.height;
    }

    /** `df[name] = values`. */
    method SetColumn(name: string, values: Column)
      requires Valid() && |values| == height
      modifies this
      ensures Valid()
      ensures Snapshot() == old(Snapshot()).With(name, values)
    {
      if name !in names {
        names := names + [name];
      }
      cols := cols[name := values];
    }

    /** `df[ns[0]] = vs[0]; ...; df[ns[m-1]] = vs[m-1]`. */
    method SetColumns(ns: seq<string>, vs: seq<Column>)
      requires Valid() && |ns| == |vs| && Fit(vs, height)
      modifies this
      ensures Valid()
      ensures Snapshot() == WithAll(old(Snapshot()), ns, vs)
    {
      for k := 0 to |ns|
        invariant Valid()
        invariant Snapshot() == WithAll(old(Snapshot()), ns[..k], vs[..k])
      {
        WithAllStep(old(Snapshot()), ns, vs, k);
        SetColumn(ns[k], vs[k]);
      }
      assert ns[..|ns|] == ns && vs[..|vs|] == vs;
    }
  }
}
