/**
 * The nested-configuration key resolver of lakego/array/get.go.
 *
 * A configuration is a tree of string-keyed maps, sequences and leaf
 * values.  A key such as "db.hosts.0.port" is lower-cased and split on the
 * resolver's delimiter; the resolver then walks the tree trying, at every
 * level, the longest group of segments first as one literal map key (or,
 * at a sequence, as a decimal index), backtracking to shorter groups on a
 * dead end.  An exact walker that follows maps one segment at a time is
 * kept as a fallback, guarded by a check for a shallower non-map value.
 *
 * Every walker yields a `Tree`, with `Nil` standing for Go's untyped nil:
 * both "nothing found" and "a stored nil" are `Nil`, exactly as in the
 * source, where a found nil cannot be told apart from absence.
 */
module ArrayGet {
  import opened Wrappers
  import opened Strings

  /** A leaf of the configuration tree; the resolver never looks inside one. */
  datatype Scalar = Str(str: string) | Num(num: int) | Bool(flag: bool)

  /**
   * A configuration value: a map (Go's map[string]any or map[any]any),
   * a slice of type []any, a leaf, or nil.  Any other Go slice or map
   * type, such as []string or map[string]string, is opaque to the
   * resolver and so is a leaf here.
   */
  datatype Tree =
    | Map(entries: map<string, Tree>)
    | Seq(items: seq<Tree>)
    | Leaf(value: Scalar)
    | Nil

  /** The two kinds of node the prefix walker descends into. */
  predicate Indexable(t: Tree) {
    t.Map? || t.Seq?
  }

  /**
   * The position a segment selects in a slice of length `|items|`: the
   * segment must parse as a decimal integer in [0, |items|).
   */
  function SliceIndex(items: seq<Tree>, prefixKey: string): (r: Option<nat>)
    ensures r.Some? <==> Atoi(prefixKey).Some? && 0 <= Atoi(prefixKey).value < |items|
    ensures r.Some? ==> r.value == Atoi(prefixKey).value
  {
    match Atoi(prefixKey)
    case None => None
    case Some(index) => if |items| <= index || index < 0 then None else Some(index)
  }

  /**
   * The index the source's guard `len(sourceSlice) <= index` lets through:
   * it rejects too-large indices but not negative ones, which Go would
   * then use to index the slice.
   */
  function SliceIndexAsWritten(length: nat, prefixKey: string): (r: Option<int>)
    ensures r.Some? <==> Atoi(prefixKey).Some? && Atoi(prefixKey).value < length
    ensures r.Some? ==> r.value == Atoi(prefixKey).value
  {
    match Atoi(prefixKey)
    case None => None
    case Some(index) => if length <= index then None else Some(index)
  }

  /** The resolver configuration: only the key delimiter. */
  datatype Arr = Arr(keyDelim: string) {

    /** A copy of this resolver that splits keys on `data`. */
    function WithKeyDelim(data: string): (r: Arr)
      ensures r.keyDelim == data
    {
      this.(keyDelim := data)
    }

    /**
     * The path a key denotes: the lower-cased key split on the delimiter.
     * Re-joining the segments gives back the lower-cased key.
     */
    function Path(key: string): (path: seq<string>)
      ensures Join(path, keyDelim) == Lower(key)
      ensures forall k :: 0 <= k < |path| ==> IsLower(path[k])
      ensures keyDelim != [] ==> |path| >= 1
      ensures keyDelim != [] ==> forall k :: 0 <= k < |path| ==> !Contains(path[k], keyDelim)
    {
      JoinSplit(Lower(key), keyDelim);
      SplitPiecesLower(Lower(key), keyDelim);
      SplitPiecesAvoidSeparator(Lower(key), keyDelim);
      Split(Lower(key), keyDelim)
    }

    // -------------------------------------------------------------------
    // Exact-map walker (searchMap)
    // -------------------------------------------------------------------

    /**
     * Follows `path` through maps only, one segment per level.  The value
     * at the last segment is returned whatever it is; an absent key or a
     * non-map intermediate value gives nil.
     */
    function SearchMap(source: map<string, Tree>, path: seq<string>): (r: Tree)
      ensures !r.Nil? && |path| >= 1 ==> path[0] in source && !source[path[0]].Nil?
      ensures !r.Nil? && |path| >= 2 ==> source[path[0]].Map?
      decreases |path|
    {
      if |path| == 0 then Map(source)
      else if path[0] !in source then Nil
      else
        var next := source[path[0]];
        if |path| == 1 then next
        else match next
          case Map(n) => SearchMap(n, path[1..])
          case _ => Nil
    }

    // -------------------------------------------------------------------
    // Prefix-search walker, as specification functions
    // -------------------------------------------------------------------

    /** The candidate key made of the first `i` segments, lower-cased again as the source does. */
    function PrefixKey(path: seq<string>, i: nat): string
      requires i <= |path|
    {
      Lower(Join(path[..i], keyDelim))
    }

    /**
     * searchIndexableWithPathPrefixes: the node itself for an empty path,
     * otherwise the first non-nil candidate, trying `i` = |path| down to 1.
     */
    function PrefixSearch(source: Tree, path: seq<string>): Tree
      decreases |path|, 3, 0
    {
      if |path| == 0 then source else TryPrefixes(source, path, |path|)
    }

    /** The loop of searchIndexableWithPathPrefixes from candidate length `i` down. */
    function TryPrefixes(source: Tree, path: seq<string>, i: nat): Tree
      requires i <= |path|
      decreases |path|, 2, i
    {
      if i == 0 then Nil
      else
        var val := Candidate(source, path, i);
        if !val.Nil? then val else TryPrefixes(source, path, i - 1)
    }

    /** What the first `i` segments, taken as one key, lead to from `source`. */
    function Candidate(source: Tree, path: seq<string>, i: nat): Tree
      requires 1 <= i <= |path|
      decreases |path|, 1, 0
    {
      match source
      case Seq(items) => SliceCandidate(items, PrefixKey(path, i), i, path)
      case Map(m) => MapCandidate(m, PrefixKey(path, i), i, path)
      case _ => Nil
    }

    /** searchSliceWithPathPrefixes. */
    function SliceCandidate(items: seq<Tree>, prefixKey: string, pathIndex: nat, path: seq<string>): Tree
      requires 1 <= pathIndex <= |path|
      decreases |path|, 0, 1
    {
      match SliceIndex(items, prefixKey)
      case None => Nil
      case Some(index) => Continue(items[index], pathIndex, path)
    }

    /** searchMapWithPathPrefixes. */
    function MapCandidate(m: map<string, Tree>, prefixKey: string, pathIndex: nat, path: seq<string>): Tree
      requires 1 <= pathIndex <= |path|
      decreases |path|, 0, 1
    {
      if prefixKey !in m then Nil else Continue(m[prefixKey], pathIndex, path)
    }

    /**
     * The shared tail of both candidate helpers: a candidate that used up
     * the path is the answer; otherwise the search goes on below a map or
     * slice, and fails below anything else.
     */
    function Continue(next: Tree, pathIndex: nat, path: seq<string>): Tree
      requires 1 <= pathIndex <= |path|
      decreases |path|, 0, 0
    {
      if pathIndex == |path| then next
      else if Indexable(next) then PrefixSearch(next, path[pathIndex..])
      else Nil
    }

    // -------------------------------------------------------------------
    // Shadow detector (isPathShadowedInDeepMap), as a specification
    // -------------------------------------------------------------------

    /**
     * The loop of isPathShadowedInDeepMap from prefix length `i` up:
     * "" once a prefix resolves to nil, the joined prefix at the first
     * prefix that resolves to a non-map, and "" if all are maps.
     */
    function ShadowFrom(path: seq<string>, m: map<string, Tree>, i: nat): string
      requires 1 <= i
      decreases |path| - i
    {
      if i >= |path| then ""
      else
        var parentVal := SearchMap(m, path[..i]);
        if parentVal.Nil? then ""
        else if parentVal.Map? then ShadowFrom(path, m, i + 1)
        else Join(path[..i], keyDelim)
    }

    // -------------------------------------------------------------------
    // Find and Get, as a specification
    // -------------------------------------------------------------------

    /** Find: the prefix walker, then (unless shadowed) the exact walker. */
    function Lookup(source: map<string, Tree>, key: string): Tree
    {
      var path := Path(key);
      var val := PrefixSearch(Map(source), path);
      if !val.Nil? then val
      else if |path| > 1 && ShadowFrom(path, source, 1) != "" then Nil
      else SearchMap(source, path)
    }

    // -------------------------------------------------------------------
    // The operations, written as the source runs them
    // -------------------------------------------------------------------

    method SearchIndexableWithPathPrefixes(source: Tree, path: seq<string>) returns (r: Tree)
      ensures r == PrefixSearch(source, path)
      decreases |path|, 3, 0
    {
      if |path| == 0 {
        return source;
      }
      var i := |path|;
      while i > 0
        invariant 0 <= i <= |path|
        invariant TryPrefixes(source, path, i) == PrefixSearch(source, path)
        decreases i
      {
        var prefixKey := Lower(Join(path[..i], keyDelim));
        var val := Nil;
        match source {
          case Seq(items) =>
            val := SearchSliceWithPathPrefixes(items, prefixKey, i, path);
          case Map(m) =>
            val := SearchMapWithPathPrefixes(m, prefixKey, i, path);
          case _ =>
        }
        if !val.Nil? {
          return val;
        }
        i := i - 1;
      }
      return Nil;
    }

    method SearchSliceWithPathPrefixes(sourceSlice: seq<Tree>, prefixKey: string, pathIndex: nat, path: seq<string>)
      returns (r: Tree)
      requires 1 <= pathIndex <= |path|
      ensures r == SliceCandidate(sourceSlice, prefixKey, pathIndex, path)
      decreases |path|, 0, 1
    {
      var index := Atoi(prefixKey);
      if index.None? || |sourceSlice| <= index.value || index.value < 0 {
        return Nil;
      }
      var next := sourceSlice[index.value];
      if pathIndex == |path| {
        return next;
      }
      if Indexable(next) {
        r := SearchIndexableWithPathPrefixes(next, path[pathIndex..]);
      } else {
        r := Nil;
      }
    }

    method SearchMapWithPathPrefixes(sourceMap: map<string, Tree>, prefixKey: string, pathIndex: nat, path: seq<string>)
      returns (r: Tree)
      requires 1 <= pathIndex <= |path|
      ensures r == MapCandidate(sourceMap, prefixKey, pathIndex, path)
      decreases |path|, 0, 1
    {
      if prefixKey !in sourceMap {
        return Nil;
      }
      var next := sourceMap[prefixKey];
      if pathIndex == |path| {
        return next;
      }
      if Indexable(next) {
        r := SearchIndexableWithPathPrefixes(next, path[pathIndex..]);
      } else {
        r := Nil;
      }
    }

    method IsPathShadowedInDeepMap(path: seq<string>, m: map<string, Tree>) returns (r: string)
      ensures r == ShadowFrom(path, m, 1)
    {
      var i := 1;
      while i < |path|
        invariant 1 <= i
        invariant ShadowFrom(path, m, i) == ShadowFrom(path, m, 1)
        decreases |path| - i
      {
        var parentVal := SearchMap(m, path[..i]);
        if parentVal.Nil? {
          return "";
        }
        if !parentVal.Map? {
          return Join(path[..i], keyDelim);
        }
        i := i + 1;
      }
      return "";
    }

    method Find(source: map<string, Tree>, key: string) returns (r: Tree)
      ensures r == Lookup(source, key)
    {
      var lowerKey := Lower(key);
      var path := Split(lowerKey, keyDelim);
      var nested := |path| > 1;

      var val := SearchIndexableWithPathPrefixes(Map(source), path);
      if !val.Nil? {
        return val;
      }
      if nested {
        var shadow := IsPathShadowedInDeepMap(path, source);
        if shadow != "" {
          return Nil;
        }
      }
      val := SearchMap(source, path);
      if !val.Nil? {
        return val;
      }
      return Nil;
    }

    /** Find, with the first of the optional defaults in place of nil. */
    method Get(source: map<string, Tree>, key: string, defVal: seq<Tree>) returns (r: Tree)
      ensures !Lookup(source, key).Nil? ==> r == Lookup(source, key)
      ensures Lookup(source, key).Nil? && |defVal| > 0 ==> r == defVal[0]
      ensures Lookup(source, key).Nil? && |defVal| == 0 ==> r == Nil
    {
      var data := Find(source, key);
      if !data.Nil? {
        return data;
      }
      if |defVal| > 0 {
        return defVal[0];
      }
      return Nil;
    }
  }

  /** The default resolver splits keys on ".". */
  function NewArr(): (a: Arr)
    ensures a.keyDelim == "."
  {
    Arr(".")
  }

  /** Get with the default resolver. */
  method ArrGet(source: map<string, Tree>, key: string, defVal: seq<Tree>) returns (r: Tree)
    ensures !NewArr().Lookup(source, key).Nil? ==> r == NewArr().Lookup(source, key)
    ensures NewArr().Lookup(source, key).Nil? && |defVal| > 0 ==> r == defVal[0]
    ensures NewArr().Lookup(source, key).Nil? && |defVal| == 0 ==> r == Nil
  {
    r := NewArr().Get(source, key, defVal);
  }
}
