/**
 * What the history table holds and what its statements compute. A table is
 * its rows in rowid order; the primary key `(timestamp, command)` is the
 * whole row, so a row is an `Entry`.
 */
module Table {
  import opened Wrappers
  import opened Records

  /** No two rows share the primary key. */
  predicate NoDups(t: seq<Entry>) {
    forall i, j :: 0 <= i < j < |t| ==> t[i] != t[j]
  }

  // ---------------------------------------------------------------------
  // REPLACE INTO
  // ---------------------------------------------------------------------

  /** The rows of `t` whose key is not in `keys`, in rowid order: what deleting those keys leaves. */
  function Drop(t: seq<Entry>, keys: set<Entry>): (r: seq<Entry>)
    ensures |r| <= |t|
    ensures forall x :: x in r <==> x in t && x !in keys
    ensures (forall x :: x in t ==> x !in keys) ==> r == t
  {
    if t == [] then [] else (if t[0] in keys then [] else [t[0]]) + Drop(t[1..], keys)
  }

  /**
   * `REPLACE INTO` one row: a row with the same key is deleted and the new
   * row is stored after every remaining row (it takes the next rowid).
   */
  function Replace(t: seq<Entry>, e: Entry): (r: seq<Entry>)
    ensures |r| > 0 && r[|r| - 1] == e
    ensures forall x :: x in r <==> x in t || x == e
    ensures NoDups(t) ==> NoDups(r)
  {
    DropNoDups(t, {e});
    NoDupsSnoc(Drop(t, {e}), e);
    Drop(t, {e}) + [e]
  }

  /** The rows a REPLACE leaves before the new one are the old rows without its key, in row-id order. */
  lemma ReplaceOrder(t: seq<Entry>, e: Entry)
    ensures var r := Replace(t, e); r[..|r| - 1] == Drop(t, {e})
  {
    var d := Drop(t, {e});
    assert (d + [e])[..|d|] == d;
  }

  /** A key can be added at the end exactly when it is not there yet. */
  lemma NoDupsSnoc(t: seq<Entry>, e: Entry)
    ensures NoDups(t + [e]) <==> e !in t && NoDups(t)
  {
    var u := t + [e];
    if NoDups(u) {
      forall i, j | 0 <= i < j < |t|
        ensures t[i] != t[j]
      {
        assert u[i] == t[i] && u[j] == t[j];
      }
      forall k | 0 <= k < |t|
        ensures t[k] != e
      {
        assert u[k] == t[k] && u[|t|] == e;
      }
    }
    if e !in t && NoDups(t) {
      forall i, j | 0 <= i < j < |u|
        ensures u[i] != u[j]
      {
        assert u[i] == t[i];
        if j < |t| {
          assert u[j] == t[j];
        }
      }
    }
  }

  /** A key can be added at the front exactly when it is not there yet. */
  lemma NoDupsCons(e: Entry, t: seq<Entry>)
    ensures NoDups([e] + t) <==> e !in t && NoDups(t)
  {
    var u := [e] + t;
    if NoDups(u) {
      forall i, j | 0 <= i < j < |t|
        ensures t[i] != t[j]
      {
        assert u[i + 1] == t[i] && u[j + 1] == t[j];
      }
      forall k | 0 <= k < |t|
        ensures t[k] != e
      {
        assert u[k + 1] == t[k] && u[0] == e;
      }
    }
    if e !in t && NoDups(t) {
      forall i, j | 0 <= i < j < |u|
        ensures u[i] != u[j]
      {
        assert u[j] == t[j - 1];
        if i > 0 {
          assert u[i] == t[i - 1];
        }
      }
    }
  }

  lemma {:induction false} DropNoDups(t: seq<Entry>, keys: set<Entry>)
    ensures NoDups(t) ==> NoDups(Drop(t, keys))
  {
    if t != [] && NoDups(t) {
      assert t == [t[0]] + t[1..];
      NoDupsCons(t[0], t[1..]);
      DropNoDups(t[1..], keys);
      var rest := Drop(t[1..], keys);
      if t[0] !in keys {
        assert Drop(t, keys) == [t[0]] + rest;
        NoDupsCons(t[0], rest);
      } else {
        assert Drop(t, keys) == [] + rest == rest;
      }
    }
  }

  /** The keys a batch of rows carries. */
  function Elems(es: seq<Entry>): (keys: set<Entry>)
    ensures forall x :: x in keys <==> x in es
  {
    if es == [] then {} else Elems(es[..|es| - 1]) + {es[|es| - 1]}
  }

  /** `executemany` of the REPLACE statement: the rows replaced one after another. */
  function ReplaceAll(t: seq<Entry>, es: seq<Entry>): seq<Entry> {
    if es == [] then t else Replace(ReplaceAll(t, es[..|es| - 1]), es[|es| - 1])
  }

  lemma {:induction false} DropAppend(a: seq<Entry>, b: seq<Entry>, keys: set<Entry>)
    ensures Drop(a + b, keys) == Drop(a, keys) + Drop(b, keys)
  {
    if a == [] {
      assert a + b == b;
    } else {
      assert (a + b)[1..] == a[1..] + b;
      DropAppend(a[1..], b, keys);
    }
  }

  lemma {:induction false} DropDrop(t: seq<Entry>, k1: set<Entry>, k2: set<Entry>)
    ensures Drop(Drop(t, k1), k2) == Drop(t, k1 + k2)
  {
    if t != [] {
      DropDrop(t[1..], k1, k2);
      DropAppend(if t[0] in k1 then [] else [t[0]], Drop(t[1..], k1), k2);
      if t[0] !in k1 {
        assert [t[0]][1..] == [];
      }
    }
  }

  lemma {:induction false} DropNone(t: seq<Entry>, keys: set<Entry>)
    requires forall x :: x in t ==> x !in keys
    ensures Drop(t, keys) == t
  {
    if t != [] {
      DropNone(t[1..], keys);
      assert t == [t[0]] + t[1..];
    }
  }

  lemma {:induction false} DropAll(t: seq<Entry>, keys: set<Entry>)
    requires forall x :: x in t ==> x in keys
    ensures Drop(t, keys) == []
  {
    if t != [] {
      DropAll(t[1..], keys);
    }
  }

  /** One more record of a batch, taken as a prefix: one more REPLACE. */
  lemma ReplacePrefix(t: seq<Entry>, es: seq<Entry>, i: nat)
    requires i < |es|
    ensures ReplaceAll(t, es[..i + 1]) == Replace(ReplaceAll(t, es[..i]), es[i])
  {
    assert es[..i + 1][..i] == es[..i];
  }

  lemma ReplaceStep(t: seq<Entry>, es: seq<Entry>, e: Entry)
    ensures ReplaceAll(t, es + [e]) == Replace(ReplaceAll(t, es), e)
  {
    assert (es + [e])[..|es|] == es;
  }

  /**
   * A batch of REPLACEs deletes every stored row whose key is in the batch
   * and then holds the batch itself with duplicates removed (each key at its
   * last place in the batch): `ReplaceAll([], es)`.
   */
  lemma {:induction false} ReplaceAllShape(t: seq<Entry>, es: seq<Entry>)
    ensures ReplaceAll(t, es) == Drop(t, Elems(es)) + ReplaceAll([], es)
  {
    if es == [] {
      DropNone(t, {});
      assert Drop(t, Elems(es)) + [] == t;
    } else {
      var init := es[..|es| - 1];
      var e := es[|es| - 1];
      ReplaceAllShape(t, init);
      ShapeStep(t, Elems(init), ReplaceAll([], init), e);
    }
  }

  lemma ShapeStep(t: seq<Entry>, keys: set<Entry>, d: seq<Entry>, e: Entry)
    ensures Replace(Drop(t, keys) + d, e) == Drop(t, keys + {e}) + Replace(d, e)
  {
    DropAppend(Drop(t, keys), d, {e});
    DropDrop(t, keys, {e});
  }

  lemma {:induction false} ReplaceAllMembers(t: seq<Entry>, es: seq<Entry>)
    ensures forall x :: x in ReplaceAll(t, es) <==> x in t || x in es
  {
    if es != [] {
      ReplaceAllMembers(t, es[..|es| - 1]);
      assert es == es[..|es| - 1] + [es[|es| - 1]];
    }
  }

  /** Loading the same history twice leaves the table as loading it once did. */
  lemma ReplaceAllIdempotent(t: seq<Entry>, es: seq<Entry>)
    ensures ReplaceAll(ReplaceAll(t, es), es) == ReplaceAll(t, es)
  {
    var keys := Elems(es);
    var d := ReplaceAll([], es);
    ReplaceAllShape(t, es);
    ReplaceAllShape(ReplaceAll(t, es), es);
    ReplaceAllMembers([], es);
    DropAppend(Drop(t, keys), d, keys);
    DropDrop(t, keys, keys);
    assert keys + keys == keys;
    DropAll(d, keys);
    assert Drop(t, keys) + [] == Drop(t, keys);
  }

  /** The primary key stays a key: a table without duplicate keys keeps none after a batch. */
  lemma {:induction false} ReplaceAllNoDups(t: seq<Entry>, es: seq<Entry>)
    requires NoDups(t)
    ensures NoDups(ReplaceAll(t, es))
  {
    if es != [] {
      ReplaceAllNoDups(t, es[..|es| - 1]);
    }
  }

  /** Loading records with distinct keys into an empty table stores them in order. */
  lemma {:induction false} ReplaceAllFresh(es: seq<Entry>)
    requires NoDups(es)
    ensures ReplaceAll([], es) == es
  {
    if es != [] {
      var init := es[..|es| - 1];
      var e := es[|es| - 1];
      assert es == init + [e];
      NoDupsSnoc(init, e);
      ReplaceAllFresh(init);
      DropNone(init, {e});
      assert ReplaceAll([], es) == Replace(init, e) == init + [e];
    }
  }

  // ---------------------------------------------------------------------
  // Queries
  // ---------------------------------------------------------------------

  /**
   * `ORDER BY rowid LIMIT n`: no limit when none is given or when it is
   * negative (SQLite reads a negative LIMIT as none), else the first `n` rows.
   */
  function Take(t: seq<Entry>, limit: Option<int>): (r: seq<Entry>)
    ensures |r| <= |t| && r == t[..|r|]
    ensures limit.None? || limit.value < 0 ==> r == t
    ensures limit.Some? && limit.value >= 0 ==> |r| == if limit.value < |t| then limit.value else |t|
  {
    if limit.None? || limit.value < 0 || limit.value >= |t| then t else t[..limit.value]
  }

  /** The rows with a timestamp strictly after `ts`, in rowid order. */
  function After(t: seq<Entry>, ts: int): (r: seq<Entry>)
    ensures forall x :: x in r <==> x in t && x.timestamp > ts
    ensures |r| <= |t|
  {
    if t == [] then [] else (if t[0].timestamp > ts then [t[0]] else []) + After(t[1..], ts)
  }

  /** Every row strictly after the time is kept as many times as it is stored, and no other row is. */
  lemma {:induction false} AfterMultiset(t: seq<Entry>, ts: int)
    ensures forall x :: multiset(After(t, ts))[x] == if x.timestamp > ts then multiset(t)[x] else 0
  {
    if t != [] {
      assert t == [t[0]] + t[1..];
      AfterMultiset(t[1..], ts);
    }
  }

  /** `select count(*) ... where timestamp > :ts`. */
  function CountSince(t: seq<Entry>, ts: int): (n: nat)
    ensures n <= |t|
  {
    |After(t, ts)|
  }

  /** A later cut-off counts no more rows than an earlier one. */
  lemma {:induction false} CountSinceMonotone(t: seq<Entry>, ts1: int, ts2: int)
    requires ts1 <= ts2
    ensures CountSince(t, ts2) <= CountSince(t, ts1)
  {
    if t != [] {
      CountSinceMonotone(t[1..], ts1, ts2);
    }
  }

  /** Every row is counted by a cut-off below all timestamps, none by one at or above all of them. */
  lemma {:induction false} CountSinceBounds(t: seq<Entry>, ts: int)
    ensures (forall x :: x in t ==> x.timestamp > ts) ==> CountSince(t, ts) == |t|
    ensures (forall x :: x in t ==> x.timestamp <= ts) ==> CountSince(t, ts) == 0
  {
    if t != [] {
      CountSinceBounds(t[1..], ts);
    }
  }

  /** `order by rowid DESC limit 1`: the timestamp of the last row stored, None for an empty table. */
  function LastTimestamp(t: seq<Entry>): (r: Option<int>)
    ensures r.None? <==> t == []
    ensures r.Some? ==> exists x :: x in t && x.timestamp == r.value
    ensures r.Some? ==> r.value == t[|t| - 1].timestamp
  {
    if t == [] then None else Some(t[|t| - 1].timestamp)
  }

  /** After a batch of REPLACEs, the last row stored is the batch's last record. */
  lemma LastAfterReplace(t: seq<Entry>, es: seq<Entry>)
    requires es != []
    ensures LastTimestamp(ReplaceAll(t, es)) == Some(es[|es| - 1].timestamp)
  {
  }

  /** The last row stored need not be the newest one: a REPLACE of an older command goes last. */
  lemma LastIsNotNewest()
    ensures var t := ReplaceAll([Entry(200, "make")], [Entry(100, "ls")]);
      LastTimestamp(t) == Some(100) && Entry(200, "make") in t
  {
    var t0 := [Entry(200, "make")];
    var es := [Entry(100, "ls")];
    assert es[..0] == [];
    assert Drop(t0, {Entry(100, "ls")}) == t0 by {
      assert t0[1..] == [];
    }
  }

  // ---------------------------------------------------------------------
  // LIKE
  // ---------------------------------------------------------------------

  /** ASCII upper case to lower case; other characters unchanged. */
  function Lower(c: char): char {
    if 'A' <= c <= 'Z' then (c as int - 'A' as int + 'a' as int) as char else c
  }

  /** A pattern character that stands for itself. */
  predicate Literal(c: char) { c != '%' && c != '_' }

  /**
   * `s LIKE p` without an ESCAPE clause: `%` matches any run of characters
   * (the empty one too), `_` exactly one character, and any other character
   * itself up to ASCII case.
   */
  function Like(p: string, s: string): bool
    decreases |p| + |s|
  {
    if p == [] then s == []
    else if p[0] == '%' then Like(p[1..], s) || (s != [] && Like(p, s[1..]))
    else s != [] && (p[0] == '_' || Lower(p[0]) == Lower(s[0])) && Like(p[1..], s[1..])
  }

  /** `s` is `p` up to ASCII case. */
  predicate SameText(p: string, s: string) {
    |p| == |s| && forall i :: 0 <= i < |p| ==> Lower(p[i]) == Lower(s[i])
  }

  /** A pattern without wildcards matches exactly the strings equal to it up to ASCII case. */
  lemma {:induction false} LikeLiteral(p: string, s: string)
    requires forall i :: 0 <= i < |p| ==> Literal(p[i])
    ensures Like(p, s) <==> SameText(p, s)
    decreases |p|
  {
    if p != [] && s != [] {
      LikeLiteral(p[1..], s[1..]);
      if SameText(p, s) {
        assert SameText(p[1..], s[1..]) by {
          forall i | 0 <= i < |p| - 1
            ensures Lower(p[1..][i]) == Lower(s[1..][i])
          {
            assert p[1..][i] == p[i + 1] && s[1..][i] == s[i + 1];
          }
        }
      }
      if Like(p, s) {
        forall i | 0 <= i < |p|
          ensures Lower(p[i]) == Lower(s[i])
        {
          if i > 0 {
            assert p[i] == p[1..][i - 1] && s[i] == s[1..][i - 1];
          }
        }
      }
    }
  }

  /** A leading `%` lets the rest of the pattern match any suffix. */
  lemma {:induction false} LikePercent(q: string, s: string)
    ensures Like("%" + q, s) <==> exists i :: 0 <= i <= |s| && Like(q, s[i..])
    decreases |s|
  {
    var p := "%" + q;
    assert p[0] == '%' && p[1..] == q;
    assert s[0..] == s;
    if s != [] {
      LikePercent(q, s[1..]);
      if Like(p, s) && !Like(q, s) {
        assert Like(p, s[1..]);
        var i :| 0 <= i <= |s[1..]| && Like(q, s[1..][i..]);
        assert s[1..][i..] == s[i + 1..];
        assert Like(q, s[i + 1..]);
      }
      if exists i :: 0 <= i <= |s| && Like(q, s[i..]) {
        var i :| 0 <= i <= |s| && Like(q, s[i..]);
        if i > 0 {
          assert s[1..][i - 1..] == s[i..];
          assert 0 <= i - 1 <= |s[1..]| && Like(q, s[1..][i - 1..]);
          assert Like(p, s[1..]);
        }
        assert Like(p, s);
      }
    }
  }

  /** A trailing `%` after a literal matches the strings that start with it. */
  lemma {:induction false} LikePrefix(w: string, s: string)
    requires forall i :: 0 <= i < |w| ==> Literal(w[i])
    ensures Like(w + "%", s) <==> |w| <= |s| && SameText(w, s[..|w|])
    decreases |w|
  {
    var p := w + "%";
    if w == [] {
      assert p == "%";
      LikeAnything(s);
    } else if s != [] {
      assert p[0] == w[0] && p[1..] == w[1..] + "%";
      LikePrefix(w[1..], s[1..]);
      if |w| <= |s| {
        var a := s[..|w|];
        assert a[1..] == s[1..][..|w| - 1];
        if SameText(w, a) {
          assert SameText(w[1..], a[1..]) by {
            forall i | 0 <= i < |w| - 1
              ensures Lower(w[1..][i]) == Lower(a[1..][i])
            {
              assert w[1..][i] == w[i + 1] && a[1..][i] == a[i + 1];
            }
          }
        }
        if Like(p, s) {
          forall i | 0 <= i < |w|
            ensures Lower(w[i]) == Lower(a[i])
          {
            if i > 0 {
              assert w[i] == w[1..][i - 1] && a[i] == a[1..][i - 1];
            }
          }
        }
      }
    }
  }

  lemma {:induction false} LikeAnything(s: string)
    ensures Like("%", s)
    decreases |s|
  {
    var p := "%";
    assert p[1..] == [];
    if s != [] {
      LikeAnything(s[1..]);
    }
  }

  /** `w` occurs in `s` at position `i`, up to ASCII case. */
  predicate OccursAt(w: string, s: string, i: int) {
    0 <= i && i + |w| <= |s| && SameText(w, s[i..i + |w|])
  }

  /** `%w%` with a literal `w` matches exactly the strings containing `w` up to ASCII case. */
  lemma LikeContains(w: string, s: string)
    requires forall i :: 0 <= i < |w| ==> Literal(w[i])
    ensures Like("%" + w + "%", s) <==> exists i :: OccursAt(w, s, i)
  {
    assert "%" + w + "%" == "%" + (w + "%");
    LikePercent(w + "%", s);
    forall i | 0 <= i <= |s|
      ensures Like(w + "%", s[i..]) <==> OccursAt(w, s, i)
    {
      LikePrefix(w, s[i..]);
      if i + |w| <= |s| {
        assert s[i..][..|w|] == s[i..i + |w|];
      }
    }
    if exists i :: OccursAt(w, s, i) {
      var i :| OccursAt(w, s, i);
      assert 0 <= i <= |s| && Like(w + "%", s[i..]);
    }
  }

  // ---------------------------------------------------------------------
  // search: LIKE, ORDER BY timestamp DESC, LIMIT
  // ---------------------------------------------------------------------

  /** The rows whose command matches the pattern, in rowid order. */
  function Matching(t: seq<Entry>, term: string): (r: seq<Entry>)
    ensures forall x :: x in r <==> x in t && Like(term, x.command)
    ensures |r| <= |t|
  {
    if t == [] then []
    else (if Like(term, t[0].command) then [t[0]] else []) + Matching(t[1..], term)
  }

  /** Every matching row is kept as many times as it is stored, and no other row is. */
  lemma {:induction false} MatchingMultiset(t: seq<Entry>, term: string)
    ensures forall x :: multiset(Matching(t, term))[x] == if Like(term, x.command) then multiset(t)[x] else 0
  {
    if t != [] {
      assert t == [t[0]] + t[1..];
      MatchingMultiset(t[1..], term);
    }
  }

  /** Newest first. */
  predicate Descending(t: seq<Entry>) {
    forall i, j :: 0 <= i < j < |t| ==> t[i].timestamp >= t[j].timestamp
  }

  /** Puts `x` into a newest-first list, before the first row that is not newer. */
  function InsertDesc(x: Entry, s: seq<Entry>): seq<Entry> {
    if s == [] || x.timestamp >= s[0].timestamp then [x] + s
    else [s[0]] + InsertDesc(x, s[1..])
  }

  /** Inserting adds `x` and loses nothing. */
  lemma {:induction false} InsertDescPerm(x: Entry, s: seq<Entry>)
    ensures multiset(InsertDesc(x, s)) == multiset(s) + multiset{x}
  {
    if s != [] && x.timestamp < s[0].timestamp {
      InsertDescPerm(x, s[1..]);
      assert s == [s[0]] + s[1..];
    }
  }

  /** The rows after inserting are `x` and the rows of `s`. */
  lemma {:induction false} InsertDescElems(x: Entry, s: seq<Entry>)
    ensures forall y :: y in InsertDesc(x, s) <==> y == x || y in s
  {
    if s != [] && x.timestamp < s[0].timestamp {
      InsertDescElems(x, s[1..]);
      assert s == [s[0]] + s[1..];
    }
  }

  /** Inserting into a newest-first list keeps it newest first. */
  lemma {:induction false} InsertDescSorted(x: Entry, s: seq<Entry>)
    requires Descending(s)
    ensures Descending(InsertDesc(x, s))
  {
    if s != [] && x.timestamp < s[0].timestamp {
      var tail := InsertDesc(x, s[1..]);
      InsertDescSorted(x, s[1..]);
      InsertDescElems(x, s[1..]);
      var r := [s[0]] + tail;
      forall j | 0 <= j < |tail|
        ensures tail[j].timestamp <= s[0].timestamp
      {
        assert tail[j] in tail;
        if tail[j] != x {
          var k :| 0 <= k < |s[1..]| && s[1..][k] == tail[j];
          assert s[k + 1] == tail[j];
        }
      }
      forall i, j | 0 <= i < j < |r|
        ensures r[i].timestamp >= r[j].timestamp
      {
        assert r[j] == tail[j - 1];
        if i > 0 {
          assert r[i] == tail[i - 1];
        }
      }
    }
  }

  /**
   * `ORDER BY timestamp DESC`: newest first. Rows with the same timestamp keep
   * their rowid order (SQLite leaves that order open; this is one it may take).
   */
  function SortDesc(t: seq<Entry>): seq<Entry> {
    if t == [] then [] else InsertDesc(t[0], SortDesc(t[1..]))
  }

  /** Sorting loses and adds nothing, and leaves the rows newest first. */
  lemma {:induction false} SortDescSpec(t: seq<Entry>)
    ensures multiset(SortDesc(t)) == multiset(t)
    ensures Descending(SortDesc(t))
  {
    if t != [] {
      var rest := SortDesc(t[1..]);
      SortDescSpec(t[1..]);
      InsertDescPerm(t[0], rest);
      InsertDescSorted(t[0], rest);
      assert t == [t[0]] + t[1..];
    }
  }

  /** The rows `search(term, limit)` returns. */
  function Search(t: seq<Entry>, term: string, limit: int): seq<Entry> {
    Take(SortDesc(Matching(t, term)), Some(limit))
  }

  /**
   * What search promises: only matching rows of the table, newest first, no
   * more than `limit` of them (all of them for a negative limit), and no row
   * left out is newer than a row returned.
   */
  lemma SearchSpec(t: seq<Entry>, term: string, limit: int)
    ensures var r := Search(t, term, limit);
      && (forall x :: x in r ==> x in t && Like(term, x.command))
      && Descending(r)
      && |r| == (if 0 <= limit < |Matching(t, term)| then limit else |Matching(t, term)|)
    ensures var all := SortDesc(Matching(t, term));
      var r := Search(t, term, limit);
      && r == all[..|r|]
      && multiset(all) == multiset(Matching(t, term))
      && (forall i, j :: 0 <= i < |r| <= j < |all| ==> r[i].timestamp >= all[j].timestamp)
  {
    var m := Matching(t, term);
    var all := SortDesc(m);
    var r := Search(t, term, limit);
    SortDescSpec(m);
    assert |all| == |m| by {
      assert |multiset(all)| == |multiset(m)|;
    }
    forall x | x in r
      ensures x in t && Like(term, x.command)
    {
      assert x in all;
      assert x in multiset(all);
      assert x in multiset(m);
    }
  }
}
