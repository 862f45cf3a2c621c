/**
 * Properties of the resolver in ArrayGet: the order in which the prefix
 * walker tries candidates, why the exact-walker fallback of Find never
 * changes its answer, what the shadow check detects, and how keys are
 * normalised.
 */
module ArrayGetProofs {
  import opened Wrappers
  import opened Strings
  import opened ArrayGet

  predicate AllLower(path: seq<string>) {
    forall k :: 0 <= k < |path| ==> IsLower(path[k])
  }

  // ---------------------------------------------------------------------
  // Longest prefix first, with backtracking
  // ---------------------------------------------------------------------

  lemma {:induction false} TryPrefixesLargest(a: Arr, source: Tree, path: seq<string>, i: nat, j: nat)
    requires 1 <= j <= i <= |path|
    requires !a.Candidate(source, path, j).Nil?
    requires forall l :: j < l <= i ==> a.Candidate(source, path, l).Nil?
    ensures a.TryPrefixes(source, path, i) == a.Candidate(source, path, j)
    decreases i
  {
    if i > j {
      TryPrefixesLargest(a, source, path, i - 1, j);
    }
  }

  lemma {:induction false} TryPrefixesNone(a: Arr, source: Tree, path: seq<string>, i: nat)
    requires i <= |path|
    ensures a.TryPrefixes(source, path, i).Nil? <==> forall l :: 1 <= l <= i ==> a.Candidate(source, path, l).Nil?
    decreases i
  {
    if i > 0 {
      TryPrefixesNone(a, source, path, i - 1);
      if !a.Candidate(source, path, i).Nil? {
        assert a.TryPrefixes(source, path, i) == a.Candidate(source, path, i);
        assert !forall l :: 1 <= l <= i ==> a.Candidate(source, path, l).Nil?;
      } else {
        assert a.TryPrefixes(source, path, i) == a.TryPrefixes(source, path, i - 1);
      }
    }
  }

  /**
   * The answer is the candidate of the greatest length `j` that leads
   * anywhere: every longer candidate that failed (absent, unparsable,
   * out of range, or a dead end below) is skipped.
   */
  lemma LongestCandidateWins(a: Arr, source: Tree, path: seq<string>, j: nat)
    requires 1 <= j <= |path|
    requires !a.Candidate(source, path, j).Nil?
    requires forall l :: j < l <= |path| ==> a.Candidate(source, path, l).Nil?
    ensures a.PrefixSearch(source, path) == a.Candidate(source, path, j)
  {
    TryPrefixesLargest(a, source, path, |path|, j);
  }

  /** A non-empty path finds nothing exactly when every candidate length fails. */
  lemma PrefixSearchFailsExactly(a: Arr, source: Tree, path: seq<string>)
    requires |path| >= 1
    ensures a.PrefixSearch(source, path).Nil? <==> forall l :: 1 <= l <= |path| ==> a.Candidate(source, path, l).Nil?
  {
    TryPrefixesNone(a, source, path, |path|);
  }

  /** The one-segment candidate at a map is the plain lookup of the first segment. */
  lemma FirstCandidateIsSegment(a: Arr, m: map<string, Tree>, path: seq<string>)
    requires |path| >= 1 && IsLower(path[0])
    ensures a.Candidate(Map(m), path, 1) == a.MapCandidate(m, path[0], 1, path)
  {
    assert path[..1] == [path[0]];
    LowerFixesExactlyLower(path[0]);
  }

  // ---------------------------------------------------------------------
  // The exact walker never finds more than the prefix walker
  // ---------------------------------------------------------------------

  /**
   * Whatever the exact walker reaches, the prefix walker reaches something
   * too, because at every level it also tries the one-segment candidate.
   */
  lemma {:induction false} ExactImpliesPrefix(a: Arr, m: map<string, Tree>, path: seq<string>)
    requires AllLower(path)
    requires !a.SearchMap(m, path).Nil?
    ensures !a.PrefixSearch(Map(m), path).Nil?
    decreases |path|
  {
    if |path| > 0 {
      FirstCandidateIsSegment(a, m, path);
      if |path| > 1 {
        ExactImpliesPrefix(a, m[path[0]].entries, path[1..]);
      }
      PrefixSearchFailsExactly(a, Map(m), path);
    }
  }

  /**
   * Find is the prefix walker alone: by the time the shadow check and the
   * exact walker run, the exact walker can only give nil.
   */
  lemma FindIsPrefixSearch(a: Arr, m: map<string, Tree>, key: string)
    ensures a.Lookup(m, key) == a.PrefixSearch(Map(m), a.Path(key))
  {
    var path := a.Path(key);
    if a.PrefixSearch(Map(m), path).Nil? && !a.SearchMap(m, path).Nil? {
      ExactImpliesPrefix(a, m, path);
    }
  }

  // ---------------------------------------------------------------------
  // The exact walker and the shadow check
  // ---------------------------------------------------------------------

  /** Walking `p + q` is walking `p` and then `q` inside the map reached. */
  lemma {:induction false} SearchMapConcat(a: Arr, m: map<string, Tree>, p: seq<string>, q: seq<string>)
    ensures a.SearchMap(m, p + q) ==
      if |q| == 0 then a.SearchMap(m, p)
      else match a.SearchMap(m, p)
        case Map(n) => a.SearchMap(n, q)
        case _ => Nil
    decreases |p|
  {
    if |q| == 0 {
      assert p + q == p;
    } else if |p| == 0 {
      assert p + q == q;
    } else {
      assert (p + q)[0] == p[0];
      assert (p + q)[1..] == p[1..] + q;
      if p[0] in m && m[p[0]].Map? {
        SearchMapConcat(a, m[p[0]].entries, p[1..], q);
      }
    }
  }

  /**
   * A strict prefix of length `k` is the first to resolve to something
   * that is neither nil nor a map, every shorter one resolving to a map.
   */
  ghost predicate FirstShadow(a: Arr, m: map<string, Tree>, path: seq<string>, k: int) {
    && 1 <= k < |path|
    && (forall j :: 1 <= j < k ==> a.SearchMap(m, path[..j]).Map?)
    && !a.SearchMap(m, path[..k]).Nil?
    && !a.SearchMap(m, path[..k]).Map?
  }

  lemma {:induction false} ShadowFromFinds(a: Arr, m: map<string, Tree>, path: seq<string>, i: nat)
    requires 1 <= i
    requires forall j :: 1 <= j < i && j < |path| ==> a.SearchMap(m, path[..j]).Map?
    ensures forall k :: i <= k && FirstShadow(a, m, path, k) ==> a.ShadowFrom(path, m, i) == Join(path[..k], a.keyDelim)
    ensures (forall k :: i <= k ==> !FirstShadow(a, m, path, k)) ==> a.ShadowFrom(path, m, i) == ""
    decreases |path| - i
  {
    if i < |path| {
      var parentVal := a.SearchMap(m, path[..i]);
      if parentVal.Map? {
        ShadowFromFinds(a, m, path, i + 1);
      } else if !parentVal.Nil? {
        assert FirstShadow(a, m, path, i);
        forall k | i < k ensures !FirstShadow(a, m, path, k) {
          assert !a.SearchMap(m, path[..i]).Map?;
        }
      } else {
        forall k | i <= k ensures !FirstShadow(a, m, path, k) {
          if k > i {
            assert !a.SearchMap(m, path[..i]).Map?;
          }
        }
      }
    }
  }

  /**
   * The shadow check reports the joined prefix of the first strict prefix
   * that resolves to a non-map value (all shorter ones resolving to maps),
   * and "" when there is none.
   */
  lemma ShadowDetectsFirstNonMap(a: Arr, m: map<string, Tree>, path: seq<string>)
    ensures forall k :: FirstShadow(a, m, path, k) ==> a.ShadowFrom(path, m, 1) == Join(path[..k], a.keyDelim)
    ensures (forall k :: !FirstShadow(a, m, path, k)) ==> a.ShadowFrom(path, m, 1) == ""
  {
    ShadowFromFinds(a, m, path, 1);
  }

  /** Below a shadowing prefix the exact walker finds nothing. */
  lemma ShadowBlocksExactWalker(a: Arr, m: map<string, Tree>, path: seq<string>, k: nat)
    requires FirstShadow(a, m, path, k)
    ensures a.SearchMap(m, path).Nil?
  {
    assert path == path[..k] + path[k..];
    SearchMapConcat(a, m, path[..k], path[k..]);
  }

  /**
   * So the shadow check only ever suppresses a fallback that would have
   * found nothing.
   */
  lemma ShadowedPathHasNoExactValue(a: Arr, m: map<string, Tree>, path: seq<string>)
    requires a.ShadowFrom(path, m, 1) != ""
    ensures a.SearchMap(m, path).Nil?
  {
    ShadowDetectsFirstNonMap(a, m, path);
    var k :| FirstShadow(a, m, path, k);
    ShadowBlocksExactWalker(a, m, path, k);
  }

  // ---------------------------------------------------------------------
  // Key normalisation
  // ---------------------------------------------------------------------

  /** Lookup is insensitive to the case of the key. */
  lemma FindIgnoresKeyCase(a: Arr, m: map<string, Tree>, key: string)
    ensures a.Lookup(m, key) == a.Lookup(m, Lower(key))
  {
    LowerIdempotent(key);
  }

  /**
   * The lower-casing of each candidate key inside the loop changes
   * nothing: the segments are lower-case already, and a key only splits
   * into several segments on a delimiter that is lower-case too.
   */
  lemma RelowerIsRedundant(a: Arr, key: string, i: nat)
    requires 1 <= i <= |a.Path(key)|
    ensures a.PrefixKey(a.Path(key), i) == Join(a.Path(key)[..i], a.keyDelim)
  {
    var path := a.Path(key);
    if |path| >= 2 {
      SplitBreaksOnlyOnLowerSeparator(Lower(key), a.keyDelim);
    }
    if i >= 2 {
      JoinLower(path[..i], a.keyDelim);
    } else {
      assert path[..i] == [path[0]];
    }
    LowerFixesExactlyLower(Join(path[..i], a.keyDelim));
  }

  lemma {:induction false} TryPrefixesAgree(a: Arr, s1: Tree, s2: Tree, path: seq<string>, i: nat)
    requires i <= |path|
    requires forall l :: 1 <= l <= i ==> a.Candidate(s1, path, l) == a.Candidate(s2, path, l)
    ensures a.TryPrefixes(s1, path, i) == a.TryPrefixes(s2, path, i)
    decreases i
  {
    if i > 0 {
      TryPrefixesAgree(a, s1, s2, path, i - 1);
    }
  }

  /** A map key holding an upper-case letter is never matched by the prefix walker. */
  lemma UpperCaseKeyNeverMatches(a: Arr, m: map<string, Tree>, k: string, path: seq<string>)
    requires !IsLower(k) && |path| >= 1
    ensures a.PrefixSearch(Map(m), path) == a.PrefixSearch(Map(m - {k}), path)
  {
    forall l | 1 <= l <= |path|
      ensures a.Candidate(Map(m), path, l) == a.Candidate(Map(m - {k}), path, l)
    {
      assert IsLower(a.PrefixKey(path, l));
    }
    TryPrefixesAgree(a, Map(m), Map(m - {k}), path, |path|);
  }

  /** Removing a top-level key with an upper-case letter never changes Find. */
  lemma FindIgnoresUpperCaseKeys(a: Arr, m: map<string, Tree>, k: string, key: string)
    requires !IsLower(k)
    requires a.keyDelim != "" || key != ""
    ensures a.Lookup(m, key) == a.Lookup(m - {k}, key)
  {
    FindIsPrefixSearch(a, m, key);
    FindIsPrefixSearch(a, m - {k}, key);
    UpperCaseKeyNeverMatches(a, m, k, a.Path(key));
  }

  // ---------------------------------------------------------------------
  // A stored nil is absence
  // ---------------------------------------------------------------------

  /** A key bound to nil behaves as if it were not there. */
  lemma StoredNilIsAbsent(a: Arr, m: map<string, Tree>, k: string, path: seq<string>)
    requires |path| >= 1
    ensures a.PrefixSearch(Map(m[k := Nil]), path) == a.PrefixSearch(Map(m - {k}), path)
  {
    forall l | 1 <= l <= |path|
      ensures a.Candidate(Map(m[k := Nil]), path, l) == a.Candidate(Map(m - {k}), path, l)
    {
      var prefixKey := a.PrefixKey(path, l);
      assert a.Candidate(Map(m[k := Nil]), path, l) == a.MapCandidate(m[k := Nil], prefixKey, l, path);
      assert a.Candidate(Map(m - {k}), path, l) == a.MapCandidate(m - {k}, prefixKey, l, path);
      if prefixKey == k {
        assert a.Continue(Nil, l, path).Nil?;
      } else {
        assert prefixKey in m[k := Nil] <==> prefixKey in m - {k};
      }
    }
    TryPrefixesAgree(a, Map(m[k := Nil]), Map(m - {k}), path, |path|);
  }

  /** Find cannot tell a stored nil from a missing key, so Get falls back to its default. */
  lemma FindStoredNilIsAbsent(a: Arr, m: map<string, Tree>, k: string, key: string)
    requires a.keyDelim != "" || key != ""
    ensures a.Lookup(m[k := Nil], key) == a.Lookup(m - {k}, key)
  {
    FindIsPrefixSearch(a, m[k := Nil], key);
    FindIsPrefixSearch(a, m - {k}, key);
    StoredNilIsAbsent(a, m, k, a.Path(key));
  }

  // ---------------------------------------------------------------------
  // Literal keys and slice indices
  // ---------------------------------------------------------------------

  /**
   * A map entry whose key is the whole lower-cased key, taken literally
   * with its delimiters, wins over any nested interpretation.
   */
  lemma WholeKeyWins(a: Arr, m: map<string, Tree>, key: string)
    requires a.keyDelim != "" || key != ""
    requires Lower(key) in m && !m[Lower(key)].Nil?
    ensures a.Lookup(m, key) == m[Lower(key)]
  {
    var path := a.Path(key);
    assert |path| >= 1;
    assert path[..|path|] == path;
    LowerIdempotent(key);
    assert a.PrefixKey(path, |path|) == Lower(key);
    assert a.Candidate(Map(m), path, |path|) == a.Continue(m[Lower(key)], |path|, path) == m[Lower(key)];
    LongestCandidateWins(a, Map(m), path, |path|);
    FindIsPrefixSearch(a, m, key);
  }

  /** A decimal segment below the length of a slice selects that element. */
  lemma SliceIndexSelects(a: Arr, items: seq<Tree>, n: nat)
    requires n < |items| && n <= MaxInt
    ensures a.PrefixSearch(Seq(items), [Itoa(n)]) == items[n]
  {
    var path := [Itoa(n)];
    assert path[..1] == path;
    AtoiItoa(n);
    assert IsLower(Itoa(n));
    LowerFixesExactlyLower(Itoa(n));
    assert Join(path[..1], a.keyDelim) == Itoa(n);
    assert a.PrefixKey(path, 1) == Itoa(n);
    assert SliceIndex(items, Itoa(n)) == Some(n);
    assert a.Candidate(Seq(items), path, 1) == a.Continue(items[n], 1, path) == items[n];
    assert a.TryPrefixes(Seq(items), path, 0).Nil?;
  }

  /**
   * The corrected slice guard differs from the source's only on negative
   * indices; on every other segment both select the same element.
   */
  lemma SliceIndexCorrectsOnlyNegatives(items: seq<Tree>, prefixKey: string)
    ensures SliceIndex(items, prefixKey).Some? ==> SliceIndexAsWritten(|items|, prefixKey) == Some(SliceIndex(items, prefixKey).value as int)
    ensures SliceIndexAsWritten(|items|, prefixKey).Some? && SliceIndexAsWritten(|items|, prefixKey).value >= 0
      ==> SliceIndex(items, prefixKey) == Some(SliceIndexAsWritten(|items|, prefixKey).value as nat)
  {
  }

  /**
   * The segment "-1" passes the source's guard for a slice of any length
   * but is no position of it: Go's `sourceSlice[index]` would panic.
   */
  lemma NegativeIndexPassesGuard(items: seq<Tree>)
    ensures SliceIndexAsWritten(|items|, "-1") == Some(-1)
    ensures SliceIndex(items, "-1") == None
  {
    assert "-1"[1..] == "1";
    assert "1"[..0] == "";
  }

  // ---------------------------------------------------------------------
  // Trees without compound keys
  // ---------------------------------------------------------------------

  /** No map key anywhere in the tree contains the delimiter. */
  predicate NoCompoundKeys(t: Tree, delim: string)
    decreases t
  {
    match t
    case Map(m) => forall k :: k in m ==> !Contains(k, delim) && NoCompoundKeys(m[k], delim)
    case Seq(s) => forall i :: 0 <= i < |s| ==> NoCompoundKeys(s[i], delim)
    case _ => true
  }

  lemma {:induction false} PlainPathsAgree(a: Arr, m: map<string, Tree>, path: seq<string>)
    requires a.keyDelim != [] && (|path| <= 1 || IsLower(a.keyDelim)) && AllLower(path)
    requires NoCompoundKeys(Map(m), a.keyDelim)
    requires !a.SearchMap(m, path).Nil?
    ensures a.PrefixSearch(Map(m), path) == a.SearchMap(m, path)
    decreases |path|
  {
    if |path| > 0 {
      forall l | 2 <= l <= |path| ensures a.Candidate(Map(m), path, l).Nil? {
        var p := path[..l];
        JoinLower(p, a.keyDelim);
        LowerFixesExactlyLower(Join(p, a.keyDelim));
        JoinOccursAfterFirst(p, a.keyDelim);
        assert Contains(a.PrefixKey(path, l), a.keyDelim);
      }
      FirstCandidateIsSegment(a, m, path);
      if |path| > 1 {
        PlainPathsAgree(a, m[path[0]].entries, path[1..]);
      }
      LongestCandidateWins(a, Map(m), path, 1);
    }
  }

  /**
   * In a tree where no key contains the delimiter, Find returns exactly
   * what plain navigation by the key's segments reaches.
   */
  lemma PlainKeysFindExactValue(a: Arr, m: map<string, Tree>, key: string)
    requires a.keyDelim != ""
    requires NoCompoundKeys(Map(m), a.keyDelim)
    requires !a.SearchMap(m, a.Path(key)).Nil?
    ensures a.Lookup(m, key) == a.SearchMap(m, a.Path(key))
  {
    var path := a.Path(key);
    if |path| >= 2 {
      SplitBreaksOnlyOnLowerSeparator(Lower(key), a.keyDelim);
    }
    PlainPathsAgree(a, m, path);
    FindIsPrefixSearch(a, m, key);
  }
}
