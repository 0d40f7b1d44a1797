/**
 * `decorateMapWithBlacklist`: the blacklist's patterns are split by kind into a flatten
 * matcher and an exclude matcher, and every node is flagged by whether its path matches.
 * The gitignore-style matcher (`ignore`) and `CodeMapHelper.transformPath` are not part of
 * this model; they are parameters: `ignores(patterns, path)` says whether a matcher built
 * from `patterns` ignores `path`.
 */
module BlacklistFilter {
  import opened CodeChartaModel
  import opened Hierarchy

  /** The transformed patterns of the items of one kind, in blacklist order. */
  function PatternsOf(blacklist: seq<BlacklistItem>, kind: BlacklistType, transformPath: string -> string): (ps: seq<string>)
    ensures |ps| <= |blacklist|
  {
    if blacklist == [] then []
    else
      var rest := PatternsOf(blacklist[1..], kind, transformPath);
      if blacklist[0].kind == kind then [transformPath(blacklist[0].path)] + rest else rest
  }

  /**
   * A pattern is in the list of a kind exactly when some item of that kind has it after
   * transformation.
   */
  lemma {:induction false} PatternsOfSound(blacklist: seq<BlacklistItem>, kind: BlacklistType, transformPath: string -> string, pattern: string)
    ensures pattern in PatternsOf(blacklist, kind, transformPath) <==>
      exists i :: 0 <= i < |blacklist| && blacklist[i].kind == kind && transformPath(blacklist[i].path) == pattern
  {
    if blacklist != [] {
      PatternsOfSound(blacklist[1..], kind, transformPath, pattern);
      if exists i :: 0 <= i < |blacklist| && blacklist[i].kind == kind && transformPath(blacklist[i].path) == pattern {
        var i :| 0 <= i < |blacklist| && blacklist[i].kind == kind && transformPath(blacklist[i].path) == pattern;
        if i > 0 {
          assert blacklist[1..][i - 1] == blacklist[i];
        }
      }
      if exists i :: 0 <= i < |blacklist[1..]| && blacklist[1..][i].kind == kind && transformPath(blacklist[1..][i].path) == pattern {
        var i :| 0 <= i < |blacklist[1..]| && blacklist[1..][i].kind == kind && transformPath(blacklist[1..][i].path) == pattern;
        assert blacklist[i + 1] == blacklist[1..][i];
      }
    }
  }

  /** The two lists together hold one pattern per item. */
  lemma {:induction false} PatternsPartition(blacklist: seq<BlacklistItem>, transformPath: string -> string)
    ensures |PatternsOf(blacklist, Flatten, transformPath)| + |PatternsOf(blacklist, Exclude, transformPath)| == |blacklist|
  {
    if blacklist != [] {
      PatternsPartition(blacklist[1..], transformPath);
    }
  }

  /**
   * The loop over the blacklist: each item's transformed path goes to the flatten patterns
   * when the item flattens and to the exclude patterns otherwise.
   */
  method SplitBlacklist(blacklist: seq<BlacklistItem>, transformPath: string -> string)
    returns (flattened: seq<string>, excluded: seq<string>)
    ensures flattened == PatternsOf(blacklist, Flatten, transformPath)
    ensures excluded == PatternsOf(blacklist, Exclude, transformPath)
  {
    flattened, excluded := [], [];
    for i := 0 to |blacklist|
      invariant flattened == PatternsOf(blacklist[..i], Flatten, transformPath)
      invariant excluded == PatternsOf(blacklist[..i], Exclude, transformPath)
    {
      PatternsOfAppend(blacklist[..i], [blacklist[i]], Flatten, transformPath);
      PatternsOfAppend(blacklist[..i], [blacklist[i]], Exclude, transformPath);
      assert blacklist[..i + 1] == blacklist[..i] + [blacklist[i]];
      var path := transformPath(blacklist[i].path);
      if blacklist[i].kind == Flatten {
        flattened := flattened + [path];
      } else {
        excluded := excluded + [path];
      }
    }
    assert blacklist[..|blacklist|] == blacklist;
  }

  lemma {:induction false} PatternsOfAppend(a: seq<BlacklistItem>, b: seq<BlacklistItem>, kind: BlacklistType, transformPath: string -> string)
    ensures PatternsOf(a + b, kind, transformPath) == PatternsOf(a, kind, transformPath) + PatternsOf(b, kind, transformPath)
  {
    if a == [] {
      assert a + b == b;
    } else {
      assert (a + b)[0] == a[0] && (a + b)[1..] == a[1..] + b;
      PatternsOfAppend(a[1..], b, kind, transformPath);
    }
  }

  /** The callback on one node: both flags from the node's transformed path, nothing else. */
  function Flag(n: Node, flattened: seq<string>, excluded: seq<string>,
                ignores: (seq<string>, string) -> bool, transformPath: string -> string): (r: Node)
    ensures r.isFlattened == ignores(flattened, transformPath(n.path))
    ensures r.isExcluded == ignores(excluded, transformPath(n.path))
    ensures r.(isFlattened := n.isFlattened, isExcluded := n.isExcluded) == n
  {
    var path := transformPath(n.path);
    n.(isFlattened := ignores(flattened, path), isExcluded := ignores(excluded, path))
  }

  /** `Flag` with the two pattern lists fixed, as the callback handed to the traversal. */
  function Flagger(flattened: seq<string>, excluded: seq<string>,
                   ignores: (seq<string>, string) -> bool, transformPath: string -> string): Node -> Node
  {
    x => Flag(x, flattened, excluded, ignores, transformPath)
  }

  /**
   * `decorateMapWithBlacklist`: every node is flagged flattened exactly when the flatten
   * patterns match its transformed path and excluded exactly when the exclude patterns do;
   * the tree's shape and every other field stay.
   */
  method DecorateMapWithBlacklist(root: Node, blacklist: seq<BlacklistItem>,
                                  ignores: (seq<string>, string) -> bool, transformPath: string -> string)
    returns (r: Node)
    ensures forall p :: ValidPos(r, p) <==> ValidPos(root, p)
    ensures forall p :: ValidPos(root, p) ==>
      && ValidPos(r, p)
      && At(r, p).isFlattened == ignores(PatternsOf(blacklist, Flatten, transformPath), transformPath(At(root, p).path))
      && At(r, p).isExcluded == ignores(PatternsOf(blacklist, Exclude, transformPath), transformPath(At(root, p).path))
      && Local(At(r, p)).(isFlattened := false, isExcluded := false) == Local(At(root, p)).(isFlattened := false, isExcluded := false)
    ensures r == MapNodes(root, Flagger(PatternsOf(blacklist, Flatten, transformPath), PatternsOf(blacklist, Exclude, transformPath), ignores, transformPath))
  {
    var flattened, excluded := SplitBlacklist(blacklist, transformPath);
    var f := Flagger(flattened, excluded, ignores, transformPath);
    r := MapNodes(root, f);
    forall p | ValidPos(r, p)
      ensures ValidPos(root, p)
    {
      MapNodesShape(root, f, p);
    }
    forall p | ValidPos(root, p)
      ensures ValidPos(r, p) && At(r, p) == MapNodes(At(root, p), f)
    {
      MapNodesAt(root, f, p);
    }
  }
}
