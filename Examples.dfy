/**
 * Concrete lookups with the default resolver, pinning down the edge
 * cases of key splitting and of the search order on small trees.
 */
module ArrayGetExamples {
  import opened Wrappers
  import opened Strings
  import opened ArrayGet
  import opened ArrayGetProofs

  const X := Leaf(Str("x"))
  const Y := Leaf(Str("y"))

  lemma OccursOneChar(s: string, c: char, j: int)
    ensures Occurs(s, [c], j) <==> 0 <= j < |s| && s[j] == c
  {
    if 0 <= j < |s| {
      assert s[j..j + 1] == [s[j]];
    }
  }

  /** Splitting on a one-character delimiter at its first occurrence. */
  lemma SplitOnCharAt(s: string, c: char, m: nat)
    requires m < |s| && s[m] == c && forall j :: 0 <= j < m ==> s[j] != c
    ensures Split(s, [c]) == [s[..m]] + Split(s[m + 1..], [c])
  {
    forall j | 0 <= j < m ensures !Occurs(s, [c], j) {
      OccursOneChar(s, c, j);
    }
    OccursOneChar(s, c, m);
    assert Index(s, [c]) == m;
  }

  /** A string without the one-character delimiter is one segment. */
  lemma SplitWithoutChar(s: string, c: char)
    requires forall j :: 0 <= j < |s| ==> s[j] != c
    ensures Split(s, [c]) == [s]
  {
    forall j | 0 <= j <= |s| ensures !Occurs(s, [c], j) {
      OccursOneChar(s, c, j);
    }
  }

  predicate NoDot(s: string) {
    forall j :: 0 <= j < |s| ==> s[j] != '.'
  }

  /** A segment free of the delimiter, the delimiter, and whatever follows. */
  lemma SplitAfterSegment(x: string, c: char, rest: string)
    requires forall j :: 0 <= j < |x| ==> x[j] != c
    ensures Split(x + [c] + rest, [c]) == [x] + Split(rest, [c])
  {
    var s := x + [c] + rest;
    assert s[|x|] == c;
    assert forall j :: 0 <= j < |x| ==> s[j] == x[j];
    SplitOnCharAt(s, c, |x|);
    assert s[..|x|] == x;
    assert s[|x| + 1..] == rest;
  }

  lemma SplitDotted2(s: string, x: string, y: string)
    requires NoDot(x) && NoDot(y) && s == x + "." + y
    ensures Split(s, ".") == [x, y]
  {
    SplitAfterSegment(x, '.', y);
    SplitWithoutChar(y, '.');
  }

  lemma SplitDotted3(s: string, x: string, y: string, z: string)
    requires NoDot(x) && NoDot(y) && NoDot(z) && s == x + "." + y + "." + z
    ensures Split(s, ".") == [x, y, z]
  {
    var rest := y + "." + z;
    assert s == x + "." + rest;
    SplitAfterSegment(x, '.', rest);
    SplitDotted2(rest, y, z);
  }

  /** Splitting keeps empty segments, and an empty delimiter splits per character. */
  lemma PathOfEmptyKey()
    ensures NewArr().Path("") == [""]
    ensures Arr("").Path("") == []
  {
    SplitWithoutChar("", '.');
  }

  lemma PathKeepsEmptySegments()
    ensures NewArr().Path("a..b") == ["a", "", "b"]
  {
    var key := "a..b";
    assert Lower(key) == key;
    SplitDotted3(key, "a", "", "b");
  }

  lemma PathIsLowerCased()
    ensures NewArr().Path("DB.Port") == ["db", "port"]
  {
    var key := "DB.Port";
    assert Lower(key) == "db.port";
    SplitDotted2(Lower(key), "db", "port");
  }

  lemma PathPerCharacter()
    ensures Arr("").Path("ab") == ["a", "b"]
  {
    var key := "ab";
    assert Lower(key) == key;
  }

  /** Which slice segments parse: a sign is allowed, trailing text is not. */
  lemma SegmentsAsNumbers()
    ensures Atoi("+7") == Some(7) && Atoi("-12") == Some(-12)
    ensures Atoi("1x") == None && Atoi("+") == None && Atoi("") == None
  {
    assert IsNumeral("+7") && NumeralValue("+7") == 7;
    assert "-12"[1..] == "12" && IsNumeral("-12");
    assert DigitsValue("12") == 12 by {
      assert "12"[..1] == "1";
    }
    assert !IsNumeral("1x") by {
      assert !IsDigit("1x"[1]);
    }
  }

  /** A literal key containing the delimiter beats the nested path it spells. */
  lemma LiteralKeyBeatsNesting()
    ensures NewArr().Lookup(map["a.b" := X, "a" := Map(map["b" := Y])], "a.b") == X
  {
    assert Lower("a.b") == "a.b";
    WholeKeyWins(NewArr(), map["a.b" := X, "a" := Map(map["b" := Y])], "a.b");
  }

  /** A case-insensitive key reaches a lower-case entry. */
  lemma UpperCaseKeyFindsLowerEntry()
    ensures NewArr().Lookup(map["port" := X], "PORT") == X
  {
    assert Lower("PORT") == "port";
    WholeKeyWins(NewArr(), map["port" := X], "PORT");
  }

  /** An empty key looks up the literal entry "" rather than returning the tree. */
  lemma EmptyKeyIsLiteral(m: map<string, Tree>)
    ensures NewArr().Lookup(m, "") == if "" in m then m[""] else Nil
  {
    var a := NewArr();
    PathOfEmptyKey();
    var path := a.Path("");
    assert path[..1] == path;
    assert a.PrefixKey(path, 1) == "";
    FindIsPrefixSearch(a, m, "");
    assert a.PrefixSearch(Map(m), path) == a.TryPrefixes(Map(m), path, 1);
    assert a.Candidate(Map(m), path, 1) == a.MapCandidate(m, "", 1, path);
    assert a.TryPrefixes(Map(m), path, 0) == Nil;
  }

  /** With an empty delimiter an empty key denotes the empty path, so the whole tree. */
  lemma EmptyDelimiterEmptyKey(m: map<string, Tree>)
    ensures Arr("").Lookup(m, "") == Map(m)
  {
    FindIsPrefixSearch(Arr(""), m, "");
    assert Arr("").Path("") == [];
  }

  /** Stored nil and a missing key are alike: Get returns its default for both. */
  lemma NilAndAbsentAgree()
    ensures NewArr().Lookup(map["a" := Nil], "a") == Nil
    ensures NewArr().Lookup(map[], "a") == Nil
  {
    var a := NewArr();
    assert Lower("a") == "a";
    FindStoredNilIsAbsent(a, map["a" := Nil], "a", "a");
    assert map["a" := Nil]["a" := Nil] == map["a" := Nil];
    assert map["a" := Nil] - {"a"} == map[];
    var path := a.Path("a");
    SplitWithoutChar("a", '.');
    assert path == ["a"];
    FindIsPrefixSearch(a, map[], "a");
    assert a.Candidate(Map(map[]), path, 1).Nil?;
    PrefixSearchFailsExactly(a, Map(map[]), path);
  }

  /** A one-segment path at a map is the plain lookup of that segment. */
  lemma SingleSegment(a: Arr, m: map<string, Tree>, seg: string)
    requires IsLower(seg) && seg in m && !m[seg].Nil?
    ensures a.PrefixSearch(Map(m), [seg]) == m[seg]
  {
    FirstCandidateIsSegment(a, m, [seg]);
    LongestCandidateWins(a, Map(m), [seg], 1);
  }

  /** Below "a": "b.c" is absent, so "b" and then "c" are followed. */
  lemma BacktrackInner()
    ensures NewArr().PrefixSearch(Map(map["b" := Map(map["c" := Y])]), ["b", "c"]) == Y
  {
    var a := NewArr();
    var inner := map["b" := Map(map["c" := Y])];
    var rest := ["b", "c"];
    assert rest[..2] == rest && rest[1..] == ["c"];
    assert Join(rest, ".") == "b.c";
    LowerFixesExactlyLower("b.c");
    assert a.Candidate(Map(inner), rest, 2).Nil?;
    SingleSegment(a, map["c" := Y], "c");
    FirstCandidateIsSegment(a, inner, rest);
    assert a.Candidate(Map(inner), rest, 1) == Y;
    LongestCandidateWins(a, Map(inner), rest, 1);
  }

  lemma PathOfABC()
    ensures NewArr().Path("a.b.c") == ["a", "b", "c"]
  {
    var key := "a.b.c";
    assert Lower(key) == key;
    SplitDotted3(key, "a", "b", "c");
  }

  lemma PrefixKeysOfABC()
    ensures NewArr().PrefixKey(["a", "b", "c"], 3) == "a.b.c"
    ensures NewArr().PrefixKey(["a", "b", "c"], 2) == "a.b"
  {
    var path := ["a", "b", "c"];
    assert path[..2] == ["a", "b"] && path[..3] == path;
    assert path[1..] == ["b", "c"] && path[1..][1..] == ["c"];
    assert Join(path[1..], ".") == "b.c";
    assert Join(path, ".") == "a.b.c";
    assert Join(path[..2], ".") == "a.b";
    LowerFixesExactlyLower("a.b.c");
    LowerFixesExactlyLower("a.b");
  }

  /** A literal "a.b" holding a leaf, beside a nested a → b → c. */
  const DeadEnd: map<string, Tree> := map["a.b" := X, "a" := Map(map["b" := Map(map["c" := Y])])]

  /** In DeadEnd, the candidates "a.b.c" and "a.b" both lead nowhere. */
  lemma DeadEndCandidates()
    ensures NewArr().Candidate(Map(DeadEnd), ["a", "b", "c"], 3).Nil?
    ensures NewArr().Candidate(Map(DeadEnd), ["a", "b", "c"], 2).Nil?
  {
    var m := DeadEnd;
    var path := ["a", "b", "c"];
    var a := NewArr();
    PrefixKeysOfABC();
    assert a.Candidate(Map(m), path, 3) == a.MapCandidate(m, "a.b.c", 3, path);
    assert a.Candidate(Map(m), path, 2) == a.MapCandidate(m, "a.b", 2, path) == a.Continue(X, 2, path);
  }

  /**
   * A longer literal key that dead-ends is abandoned for a shorter one:
   * "a.b" holds a leaf, so "a.b.c" is resolved through "a", then "b", then "c".
   */
  lemma BacktracksPastDeadEnd()
    ensures NewArr().Lookup(DeadEnd, "a.b.c") == Y
  {
    PathOfABC();
    FindIsPrefixSearch(NewArr(), DeadEnd, "a.b.c");
    DeadEndSearch();
  }

  /** The prefix walker's side of BacktracksPastDeadEnd. */
  lemma DeadEndSearch()
    ensures NewArr().PrefixSearch(Map(DeadEnd), ["a", "b", "c"]) == Y
  {
    var m := DeadEnd;
    var a := NewArr();
    var path := ["a", "b", "c"];
    DeadEndCandidates();
    assert path[1..] == ["b", "c"];
    BacktrackInner();
    FirstCandidateIsSegment(a, m, path);
    assert a.Candidate(Map(m), path, 1) == Y;
    LongestCandidateWins(a, Map(m), path, 1);
  }


  const Ten := Leaf(Num(10))
  const Twenty := Leaf(Num(20))
  const Thirty := Leaf(Num(30))

  /** A lower-case key with one dot: its path and its whole-key candidate. */
  lemma TwoSegmentKey(a: Arr, key: string, x: string, y: string)
    requires a == NewArr() && key == x + "." + y && NoDot(x) && NoDot(y) && IsLower(key)
    ensures a.Path(key) == [x, y] && a.PrefixKey([x, y], 2) == key
  {
    LowerFixesExactlyLower(key);
    SplitDotted2(key, x, y);
    assert [x, y][..2] == [x, y] && [x, y][1..] == [y];
  }

  /**
   * For a two-segment path whose whole-key candidate is absent, the
   * answer is whatever the second segment finds below the first.
   */
  lemma ThroughFirstSegment(a: Arr, m: map<string, Tree>, x: string, y: string)
    requires IsLower(x) && x in m && a.PrefixKey([x, y], 2) !in m
    ensures a.PrefixSearch(Map(m), [x, y]) ==
      if Indexable(m[x]) then a.PrefixSearch(m[x], [y]) else Nil
  {
    var path := [x, y];
    assert path[1..] == [y];
    assert a.Candidate(Map(m), path, 2).Nil?;
    FirstCandidateIsSegment(a, m, path);
    if !a.Candidate(Map(m), path, 1).Nil? {
      LongestCandidateWins(a, Map(m), path, 1);
    } else {
      PrefixSearchFailsExactly(a, Map(m), path);
    }
  }

  /** A one-segment path at a slice fails when the segment selects no element. */
  lemma SliceSegmentFails(a: Arr, items: seq<Tree>, seg: string)
    requires IsLower(seg) && SliceIndex(items, seg).None?
    ensures a.PrefixSearch(Seq(items), [seg]).Nil?
  {
    assert [seg][..1] == [seg];
    LowerFixesExactlyLower(seg);
    assert a.Candidate(Seq(items), [seg], 1).Nil?;
    PrefixSearchFailsExactly(a, Seq(items), [seg]);
  }

  /** "list.1" selects the second element of the slice under "list". */
  lemma ListIndexSelects()
    ensures NewArr().Lookup(map["list" := Seq([Ten, Twenty, Thirty])], "list.1") == Twenty
  {
    var m := map["list" := Seq([Ten, Twenty, Thirty])];
    var key := "list.1";
    var a := NewArr();
    TwoSegmentKey(a, key, "list", "1");
    FindIsPrefixSearch(a, m, key);
    ThroughFirstSegment(a, m, "list", "1");
    assert Itoa(1) == "1";
    SliceIndexSelects(a, [Ten, Twenty, Thirty], 1);
  }

  /** "list.9" is past the end of the slice: not found. */
  lemma ListIndexOutOfRange()
    ensures NewArr().Lookup(map["list" := Seq([Ten, Twenty, Thirty])], "list.9") == Nil
  {
    var m := map["list" := Seq([Ten, Twenty, Thirty])];
    var key := "list.9";
    var a := NewArr();
    TwoSegmentKey(a, key, "list", "9");
    FindIsPrefixSearch(a, m, key);
    ThroughFirstSegment(a, m, "list", "9");
    assert Itoa(9) == "9";
    AtoiItoa(9);
    SliceSegmentFails(a, [Ten, Twenty, Thirty], "9");
  }

  /** "list.x" is not a number: not found. */
  lemma ListIndexNotNumeric()
    ensures NewArr().Lookup(map["list" := Seq([Ten, Twenty, Thirty])], "list.x") == Nil
  {
    var m := map["list" := Seq([Ten, Twenty, Thirty])];
    var key := "list.x";
    var a := NewArr();
    TwoSegmentKey(a, key, "list", "x");
    FindIsPrefixSearch(a, m, key);
    ThroughFirstSegment(a, m, "list", "x");
    assert Atoi("x") == None;
    SliceSegmentFails(a, [Ten, Twenty, Thirty], "x");
  }

  /**
   * "list.-1" passes the source's slice guard (where Go would then panic);
   * the corrected guard makes it not found.
   */
  lemma ListIndexNegative()
    ensures SliceIndexAsWritten(1, "-1") == Some(-1)
    ensures NewArr().Lookup(map["list" := Seq([Ten])], "list.-1") == Nil
  {
    var m := map["list" := Seq([Ten])];
    var key := "list.-1";
    var a := NewArr();
    TwoSegmentKey(a, key, "list", "-1");
    FindIsPrefixSearch(a, m, key);
    ThroughFirstSegment(a, m, "list", "-1");
    NegativeIndexPassesGuard([Ten]);
    SliceSegmentFails(a, [Ten], "-1");
  }

  const Shadowed: map<string, Tree> := map["a" := Leaf(Str("scalar"))]

  /**
   * "a" holds a leaf, so "a.b" is not found; the shadow check names "a"
   * as the shadowing prefix.
   */
  lemma LeafShadowsDeeperKey()
    ensures NewArr().Lookup(Shadowed, "a.b") == Nil
    ensures NewArr().ShadowFrom(["a", "b"], Shadowed, 1) == "a"
  {
    var m := Shadowed;
    var key := "a.b";
    var a := NewArr();
    TwoSegmentKey(a, key, "a", "b");
    FindIsPrefixSearch(a, m, key);
    ThroughFirstSegment(a, m, "a", "b");
    assert ["a", "b"][..1] == ["a"];
  }
}
