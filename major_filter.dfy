/**
 * filterByMajor: keep the packages whose version string carries the
 * distribution tag of one major release (".el7" for major "7"). It is a
 * substring test on the version, not a version comparison.
 */
module MajorFilter {
  import opened Models

  /** Go's strings.Contains: `sub` occurs in `s` at some offset. */
  predicate Contains(s: string, sub: string)
    ensures sub <= s ==> Contains(s, sub)
    ensures Contains(s, sub) ==> |sub| <= |s|
  {
    assert s[0..] == s;
    exists i :: 0 <= i <= |s| && sub <= s[i..]
  }

  /** A package belongs to major release `majorVer` when its version contains ".el" + majorVer. */
  predicate MatchesMajor(p: Package, majorVer: string) {
    Contains(p.version, ".el" + majorVer)
  }

  /** Specification of filterByMajor: the matching packages, in input order. */
  function KeepMajor(packs: seq<Package>, majorVer: string): (r: seq<Package>)
    ensures |r| <= |packs|
    ensures forall p :: p in r ==> p in packs && MatchesMajor(p, majorVer)
  {
    if packs == [] then []
    else
      var last := packs[|packs| - 1];
      KeepMajor(packs[..|packs| - 1], majorVer) + (if MatchesMajor(last, majorVer) then [last] else [])
  }

  /** `a` can be obtained from `b` by dropping elements, without reordering the rest. */
  ghost predicate IsSubsequence<T>(a: seq<T>, b: seq<T>)
    decreases |b|
  {
    || a == []
    || (&& b != []
        && (|| (a[|a| - 1] == b[|b| - 1] && IsSubsequence(a[..|a| - 1], b[..|b| - 1]))
            || IsSubsequence(a, b[..|b| - 1])))
  }

  /** The loop of filterByMajor, appending every matching package to `filtered`. */
  method FilterByMajor(packs: seq<Package>, majorVer: string) returns (filtered: seq<Package>)
    ensures filtered == KeepMajor(packs, majorVer)
    ensures forall p :: p in filtered <==> p in packs && MatchesMajor(p, majorVer)
  {
    filtered := [];
    for i := 0 to |packs|
      invariant filtered == KeepMajor(packs[..i], majorVer)
    {
      assert packs[..i + 1][..i] == packs[..i];
      if Contains(packs[i].version, ".el" + majorVer) {
        filtered := filtered + [packs[i]];
      }
    }
    assert packs[..|packs|] == packs;
    KeepMajorMembers(packs, majorVer);
  }

  /** Exactly the packages of the input whose version carries the tag are kept. */
  lemma {:induction false} KeepMajorMembers(packs: seq<Package>, majorVer: string)
    ensures forall p :: p in KeepMajor(packs, majorVer) <==> p in packs && MatchesMajor(p, majorVer)
  {
    if packs != [] {
      assert packs == packs[..|packs| - 1] + [packs[|packs| - 1]];
      KeepMajorMembers(packs[..|packs| - 1], majorVer);
    }
  }

  /** The filter keeps the input's order: its result is a subsequence of the input, so never longer. */
  lemma {:induction false} KeepMajorIsSubsequence(packs: seq<Package>, majorVer: string)
    ensures IsSubsequence(KeepMajor(packs, majorVer), packs)
    ensures |KeepMajor(packs, majorVer)| <= |packs|
  {
    if packs != [] {
      var init, last := packs[..|packs| - 1], packs[|packs| - 1];
      KeepMajorIsSubsequence(init, majorVer);
      var r := KeepMajor(packs, majorVer);
      if MatchesMajor(last, majorVer) {
        assert r[..|r| - 1] == KeepMajor(init, majorVer);
      } else {
        assert r == KeepMajor(init, majorVer);
      }
    }
  }

  /** The filter works package by package: filtering a concatenation concatenates the filtered parts. */
  lemma {:induction false} KeepMajorAppend(a: seq<Package>, b: seq<Package>, majorVer: string)
    ensures KeepMajor(a + b, majorVer) == KeepMajor(a, majorVer) + KeepMajor(b, majorVer)
  {
    if b == [] {
      assert a + b == a;
    } else {
      assert (a + b)[..|a + b| - 1] == a + b[..|b| - 1];
      KeepMajorAppend(a, b[..|b| - 1], majorVer);
    }
  }

  /** Filtering twice by the same major version is the same as filtering once. */
  lemma {:induction false} KeepMajorIdempotent(packs: seq<Package>, majorVer: string)
    ensures KeepMajor(KeepMajor(packs, majorVer), majorVer) == KeepMajor(packs, majorVer)
  {
    if packs != [] {
      var init, last := packs[..|packs| - 1], packs[|packs| - 1];
      var once := KeepMajor(init, majorVer);
      KeepMajorIdempotent(init, majorVer);
      assert packs[..|packs| - 1] == init;
      if MatchesMajor(last, majorVer) {
        assert KeepMajor(packs, majorVer) == once + [last];
        KeepMajorAppend(once, [last], majorVer);
        assert [last][..0] == [];
        assert KeepMajor([last], majorVer) == [last];
      } else {
        assert KeepMajor(packs, majorVer) == once;
      }
    }
  }

  /** "1.0.el7" is kept and "2.0.el8" dropped when filtering for major "7". */
  lemma KeepMajorExample(a: Package, b: Package)
    requires a.version == "1.0.el7" && b.version == "2.0.el8"
    ensures KeepMajor([a, b], "7") == [a]
  {
    assert ".el" + "7" == ".el7";
    assert ".el7" <= a.version[3..];
    assert MatchesMajor(a, "7");
    forall i | 0 <= i <= |b.version|
      ensures !(".el7" <= b.version[i..])
    {
      if i == 0 || i == 2 {
        assert b.version[i] != '.';
      } else if i == 1 {
        assert b.version[i + 1] != 'e';
      } else if i == 3 {
        assert b.version[i + 3] != '7';
      } else {
        assert |b.version[i..]| < 4;
      }
    }
    assert !MatchesMajor(b, "7");
    assert [a, b][..1] == [a];
    assert [a][..0] == [];
    assert KeepMajor([a], "7") == [a];
  }
}
