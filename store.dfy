/**
 * The relational store the advisory code runs against, reduced to what it
 * uses: nine tables held as sequences of rows in insertion order, and the
 * three query shapes it issues — find every row whose column equals a value,
 * take the first such row, and delete every row whose column equals a value.
 */
module Store {
  import opened Models

  datatype Option<+T> = None | Some(value: T)

  /** Errors the advisory code can return; their message text is left out. */
  datatype Error =
    | DeleteFailed   // "Failed to delete: ..."
    | InsertFailed   // "Failed to insert. cve: ..., err: ..."
    | CommitFailed   // the error of tx.Commit()
    | NotFound       // a lookup into a single row found none (gorm's RecordNotFound)

  datatype Result<+T> = Success(value: T) | Failure(error: Error)

  datatype Tables = Tables(
    metas: seq<FetchMeta>,
    roots: seq<Root>,
    definitions: seq<Definition>,
    advisories: seq<Advisory>,
    cves: seq<Cve>,
    bugzillas: seq<Bugzilla>,
    cpes: seq<Cpe>,
    packages: seq<Package>,
    references: seq<Reference>)

  /** Rows of `s` whose `key` column equals `v`, in table order (`Where(...).Find(&rows)`). */
  function Where<T(!new), K(==)>(s: seq<T>, key: T -> K, v: K): (r: seq<T>)
    ensures |r| <= |s|
    ensures forall x :: x in r <==> x in s && key(x) == v
  {
    if s == [] then []
    else
      assert s == s[..|s| - 1] + [s[|s| - 1]];
      Where(s[..|s| - 1], key, v) + (if key(s[|s| - 1]) == v then [s[|s| - 1]] else [])
  }

  /**
   * The first row of `s`, in table order, whose `key` column equals `v`
   * (`Where(...).First(&row)`); FirstIsEarliest shows no earlier row
   * matches. In a table kept in rising id order (see `Ordered`) that is the
   * matching row with the lowest id (FirstIsLowest), the row the ORM's
   * First, ordered by primary key, returns.
   */
  function First<T(!new), K(==)>(s: seq<T>, key: T -> K, v: K): (r: Option<T>)
    ensures r.None? <==> forall x :: x in s ==> key(x) != v
    ensures r.Some? ==> r.value in s && key(r.value) == v
  {
    var found := Where(s, key, v);
    if found == [] then None
    else
      assert found[0] in found;
      Some(found[0])
  }

  /** The head of a lookup's result is the earliest matching row of the table. */
  lemma {:induction false} WhereHeadIsEarliest<T(!new), K>(s: seq<T>, key: T -> K, v: K)
    requires Where(s, key, v) != []
    ensures exists i :: 0 <= i < |s| && s[i] == Where(s, key, v)[0] && forall j :: 0 <= j < i ==> key(s[j]) != v
  {
    var n := |s| - 1;
    var init := s[..n];
    assert s == init + [s[n]];
    if Where(init, key, v) != [] {
      WhereHeadIsEarliest(init, key, v);
      var i :| 0 <= i < |init| && init[i] == Where(init, key, v)[0] && forall j :: 0 <= j < i ==> key(init[j]) != v;
      assert s[i] == Where(s, key, v)[0] && forall j :: 0 <= j < i ==> key(s[j]) != v;
    } else {
      assert forall j :: 0 <= j < n ==> key(s[j]) != v by {
        forall j | 0 <= j < n ensures key(s[j]) != v {
          assert s[j] in init;
        }
      }
      assert s[n] == Where(s, key, v)[0];
    }
  }

  /** No row before the one First returns matches: it is the first match in table order. */
  lemma FirstIsEarliest<T(!new), K>(s: seq<T>, key: T -> K, v: K)
    requires First(s, key, v).Some?
    ensures exists i :: 0 <= i < |s| && s[i] == First(s, key, v).value && forall j :: 0 <= j < i ==> key(s[j]) != v
  {
    WhereHeadIsEarliest(s, key, v);
  }

  /** The rows of `s` in strictly rising order of the column `id`. */
  predicate Increasing<T>(s: seq<T>, id: T -> nat) {
    forall i, j :: 0 <= i < j < |s| ==> id(s[i]) < id(s[j])
  }

  /**
   * Every table lists its rows in rising id order: the order in which the
   * store hands ids out, and the primary-key order lookups return rows in.
   */
  predicate Ordered(t: Tables) {
    && Increasing(t.metas, FetchMetaId)
    && Increasing(t.roots, RootId)
    && Increasing(t.definitions, DefinitionId)
    && Increasing(t.advisories, AdvisoryId)
    && Increasing(t.cves, CveId)
    && Increasing(t.bugzillas, BugzillaId)
    && Increasing(t.cpes, CpeId)
    && Increasing(t.packages, PackageId)
    && Increasing(t.references, ReferenceId)
  }

  /** In a table in rising id order, the first matching row is the matching row with the lowest id. */
  lemma FirstIsLowest<T(!new), K>(s: seq<T>, id: T -> nat, key: T -> K, v: K)
    requires Increasing(s, id) && First(s, key, v).Some?
    ensures forall y :: y in s && key(y) == v ==> id(First(s, key, v).value) <= id(y)
  {
    var x := First(s, key, v).value;
    FirstIsEarliest(s, key, v);
    var i :| 0 <= i < |s| && s[i] == x && forall j :: 0 <= j < i ==> key(s[j]) != v;
    forall y | y in s && key(y) == v
      ensures id(x) <= id(y)
    {
      var k :| 0 <= k < |s| && s[k] == y;
      if k < i {
        assert key(s[k]) != v;
      }
    }
  }

  /** In a table in rising id order no two rows share an id. */
  lemma IncreasingUnique<T>(s: seq<T>, id: T -> nat, x: T, y: T)
    requires Increasing(s, id) && x in s && y in s && id(x) == id(y)
    ensures x == y
  {
    var i :| 0 <= i < |s| && s[i] == x;
    var j :| 0 <= j < |s| && s[j] == y;
  }

  /** A lookup with exactly one matching row takes that row. */
  lemma FirstOfOnly<T(!new), K>(s: seq<T>, key: T -> K, v: K, x: T)
    requires Where(s, key, v) == [x]
    ensures First(s, key, v) == Some(x)
  {
    assert x in Where(s, key, v);
    assert First(s, key, v).value in Where(s, key, v);
  }

  /** Two tables in rising id order, every id of the first below every id of the second, join in rising order. */
  lemma AppendIncreasing<T>(a: seq<T>, b: seq<T>, id: T -> nat)
    requires Increasing(a, id) && Increasing(b, id)
    requires forall x, y :: x in a && y in b ==> id(x) < id(y)
    ensures Increasing(a + b, id)
  {
    var ab := a + b;
    forall i, j | 0 <= i < j < |ab|
      ensures id(ab[i]) < id(ab[j])
    {
      if i < |a| && |a| <= j {
        assert ab[i] in a && ab[j] == b[j - |a|];
      } else if |a| <= i {
        assert ab[i] == b[i - |a|] && ab[j] == b[j - |a|];
      }
    }
  }

  /** Rows of `s` that survive `Delete` of every row whose `key` column is in `gone`, in table order. */
  function Without<T(!new), K(==)>(s: seq<T>, key: T -> K, gone: set<K>): (r: seq<T>)
    ensures |r| <= |s|
    ensures forall x :: x in r <==> x in s && key(x) !in gone
  {
    if s == [] then []
    else
      assert s == s[..|s| - 1] + [s[|s| - 1]];
      Without(s[..|s| - 1], key, gone) + (if key(s[|s| - 1]) in gone then [] else [s[|s| - 1]])
  }

  /** Both lookups and deletes work row by row: on a concatenation they concatenate. */
  lemma {:induction false} WhereAppend<T(!new), K>(a: seq<T>, b: seq<T>, key: T -> K, v: K)
    ensures Where(a + b, key, v) == Where(a, key, v) + Where(b, key, v)
  {
    if b == [] {
      assert a + b == a;
    } else {
      assert (a + b)[..|a + b| - 1] == a + b[..|b| - 1];
      assert (a + b)[|a + b| - 1] == b[|b| - 1];
      WhereAppend(a, b[..|b| - 1], key, v);
    }
  }

  lemma {:induction false} WithoutAppend<T(!new), K>(a: seq<T>, b: seq<T>, key: T -> K, gone: set<K>)
    ensures Without(a + b, key, gone) == Without(a, key, gone) + Without(b, key, gone)
  {
    if b == [] {
      assert a + b == a;
    } else {
      var init, last := b[..|b| - 1], b[|b| - 1];
      var kept := if key(last) in gone then [] else [last];
      assert (a + b)[..|a + b| - 1] == a + init && (a + b)[|a + b| - 1] == last;
      assert Without(a + b, key, gone) == Without(a + init, key, gone) + kept;
      assert Without(b, key, gone) == Without(init, key, gone) + kept;
      WithoutAppend(a, init, key, gone);
    }
  }


  /** Two successive deletes remove exactly the rows either of them matches, keeping the order of the rest. */
  lemma {:induction false} WithoutWithout<T(!new), K>(s: seq<T>, key: T -> K, a: set<K>, b: set<K>)
    ensures Without(Without(s, key, a), key, b) == Without(s, key, a + b)
  {
    if s != [] {
      var init, last := s[..|s| - 1], s[|s| - 1];
      WithoutWithout(init, key, a, b);
      WithoutAppend(Without(init, key, a), if key(last) in a then [] else [last], key, b);
    }
  }

  /** A delete that matches no row leaves the table as it was. */
  lemma {:induction false} WithoutNothing<T(!new), K>(s: seq<T>, key: T -> K, gone: set<K>)
    requires forall x :: x in s ==> key(x) !in gone
    ensures Without(s, key, gone) == s
  {
    if s != [] {
      assert s == s[..|s| - 1] + [s[|s| - 1]];
      WithoutNothing(s[..|s| - 1], key, gone);
    }
  }

  /** A delete keeps the surviving rows in their order, so a table in rising id order stays so. */
  lemma {:induction false} WithoutIncreasing<T(!new), K>(s: seq<T>, key: T -> K, gone: set<K>, id: T -> nat)
    requires Increasing(s, id)
    ensures Increasing(Without(s, key, gone), id)
  {
    if s != [] {
      var init, last := s[..|s| - 1], s[|s| - 1];
      WithoutIncreasing(init, key, gone, id);
      forall x | x in Without(init, key, gone)
        ensures id(x) < id(last)
      {
        var k :| 0 <= k < |init| && init[k] == x;
      }
      AppendIncreasing(Without(init, key, gone), if key(last) in gone then [] else [last], id);
    }
  }

  /** A lookup that every row matches returns the whole table; one that no row matches returns nothing. */
  lemma {:induction false} WhereAllOrNone<T(!new), K>(s: seq<T>, key: T -> K, v: K)
    ensures (forall x :: x in s ==> key(x) == v) ==> Where(s, key, v) == s
    ensures (forall x :: x in s ==> key(x) != v) ==> Where(s, key, v) == []
  {
    if s != [] {
      var init := s[..|s| - 1];
      assert s == init + [s[|s| - 1]];
      WhereAllOrNone(init, key, v);
      if forall x :: x in s ==> key(x) == v {
        assert forall x :: x in init ==> key(x) == v;
      }
      if forall x :: x in s ==> key(x) != v {
        assert forall x :: x in init ==> key(x) != v;
      }
    }
  }

  /** A lookup over two tables joined, when only rows of the first match and all of them do. */
  lemma WhereFirstPart<T(!new), K>(a: seq<T>, b: seq<T>, key: T -> K, v: K)
    requires forall x :: x in a ==> key(x) == v
    requires forall x :: x in b ==> key(x) != v
    ensures Where(a + b, key, v) == a
  {
    WhereAppend(a, b, key, v);
    WhereAllOrNone(a, key, v);
    WhereAllOrNone(b, key, v);
  }

  /** A lookup over two tables joined, when no row of the first matches. */
  lemma WhereSecondPart<T(!new), K>(a: seq<T>, b: seq<T>, key: T -> K, v: K)
    requires forall x :: x in a ==> key(x) != v
    ensures Where(a + b, key, v) == Where(b, key, v)
  {
    WhereAppend(a, b, key, v);
    WhereAllOrNone(a, key, v);
  }
}
