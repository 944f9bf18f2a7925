/**
 * The folder tree rebuilt from the store's flat key list (`buildFileTree`)
 * and the lookup of the folder the browser location points at
 * (`getSubtree`).
 *
 * A JavaScript object used as a folder is modelled as a `Level`: its
 * entries in key insertion order. Assigning to an existing key keeps its
 * place; assigning to a new key appends it. A file is the `null` marker,
 * here `Leaf`.
 */
module FileTree {
  import opened Wrappers
  import opened Strings

  datatype Node = Leaf | Dir(entries: seq<Entry>)
  datatype Entry = Entry(name: string, node: Node)
  type Level = seq<Entry>

  /** `Object.keys(level)`. */
  function Names(level: Level): seq<string> {
    seq(|level|, i requires 0 <= i < |level| => level[i].name)
  }

  /** `level[name]`: `None` stands for `undefined`. */
  function Find(level: Level, name: string): Option<Node>
    decreases |level|
  {
    if level == [] then None
    else if level[0].name == name then Some(level[0].node)
    else Find(level[1..], name)
  }

  /** `level[name] = node`: overwrite in place, or append a new key. */
  function Put(level: Level, name: string, node: Node): Level
    decreases |level|
  {
    if level == [] then [Entry(name, node)]
    else if level[0].name == name then [Entry(name, node)] + level[1..]
    else [level[0]] + Put(level[1..], name, node)
  }

  /** No key occurs twice in a level, as in any JavaScript object. */
  predicate DistinctNames(level: Level) {
    forall i, j :: 0 <= i < j < |level| ==> level[i].name != level[j].name
  }

  /** Every folder of the tree has distinct keys. */
  predicate WellFormed(level: Level)
    decreases level
  {
    && DistinctNames(level)
    && forall i :: 0 <= i < |level| ==>
         match level[i].node
         case Leaf => true
         case Dir(sub) => WellFormed(sub)
  }

  // ---------------------------------------------------------------------
  // Lookup and update of one level
  // ---------------------------------------------------------------------

  lemma {:induction false} FindPutSame(level: Level, name: string, node: Node)
    ensures Find(Put(level, name, node), name) == Some(node)
    decreases |level|
  {
    if level != [] && level[0].name != name {
      FindPutSame(level[1..], name, node);
    }
  }

  lemma {:induction false} FindPutOther(level: Level, name: string, node: Node, other: string)
    requires other != name
    ensures Find(Put(level, name, node), other) == Find(level, other)
    decreases |level|
  {
    if level != [] && level[0].name != name {
      FindPutOther(level[1..], name, node, other);
    }
  }

  /** The keys of a non-empty level: its first key, then the keys of the rest. */
  lemma NamesCons(level: Level)
    requires level != []
    ensures Names(level) == [level[0].name] + Names(level[1..])
  {
    assert forall k :: 0 <= k < |level| - 1 ==> Names(level)[k + 1] == Names(level[1..])[k];
  }

  /** Overwriting keeps the key order; a new key goes last. */
  lemma {:induction false} NamesPut(level: Level, name: string, node: Node)
    ensures Names(Put(level, name, node)) == if name in Names(level) then Names(level) else Names(level) + [name]
    decreases |level|
  {
    if level != [] {
      var updated := Put(level, name, node);
      NamesCons(level);
      NamesCons(updated);
      if level[0].name == name {
        assert updated[1..] == level[1..];
      } else {
        NamesPut(level[1..], name, node);
        assert updated[1..] == Put(level[1..], name, node);
        assert name in Names(level) <==> name in Names(level[1..]);
      }
    }
  }

  /** Every entry after an update is an old entry or the new one. */
  lemma {:induction false} PutEntries(level: Level, name: string, node: Node)
    ensures forall i :: 0 <= i < |Put(level, name, node)| ==>
              Put(level, name, node)[i] in level || Put(level, name, node)[i] == Entry(name, node)
    decreases |level|
  {
    if level != [] && level[0].name != name {
      PutEntries(level[1..], name, node);
    }
  }

  /** An update never duplicates a key: it overwrites the key in place or appends a new one. */
  lemma PutKeepsDistinct(level: Level, name: string, node: Node)
    requires DistinctNames(level)
    ensures DistinctNames(Put(level, name, node))
  {
    var updated := Put(level, name, node);
    NamesPut(level, name, node);
    assert |Names(updated)| == |updated|;
    forall i, j | 0 <= i < j < |updated| ensures updated[i].name != updated[j].name {
      assert updated[i].name == Names(updated)[i] && updated[j].name == Names(updated)[j];
      assert Names(level)[i] == level[i].name;
      if j < |level| {
        assert Names(level)[j] == level[j].name;
      }
    }
  }

  // ---------------------------------------------------------------------
  // buildFileTree
  // ---------------------------------------------------------------------

  /**
   * The folder the cursor moves into at `name`: the existing folder, or a
   * fresh `{}` when the key is missing or holds a file (`!current[part]`
   * is true for both `undefined` and `null`).
   */
  function Child(level: Level, name: string): Level {
    match Find(level, name)
    case Some(Dir(sub)) => sub
    case _ => []
  }

  /** The tree after recording the key whose segments are `parts`. */
  function Insert(level: Level, parts: seq<string>): Level
    requires |parts| >= 1
    decreases |parts|
  {
    if |parts| == 1 then Put(level, parts[0], Leaf)
    else Put(level, parts[0], Dir(Insert(Child(level, parts[0]), parts[1..])))
  }

  /** The folder the cursor stands on after walking the first `i` segments. */
  function Cursor(level: Level, parts: seq<string>, i: nat): Level
    requires i < |parts|
  {
    if i == 0 then level else Child(Cursor(level, parts, i - 1), parts[i - 1])
  }

  /** Recording the rest of a key from the cursor at segment `i`, one step unfolded. */
  lemma InsertFromCursor(tree: Level, parts: seq<string>, i: nat)
    requires i + 1 < |parts|
    ensures Insert(Cursor(tree, parts, i), parts[i..]) ==
            Put(Cursor(tree, parts, i), parts[i], Dir(Insert(Cursor(tree, parts, i + 1), parts[i + 1..])))
  {
    assert parts[i..][1..] == parts[i + 1..];
  }

  /** Recording the last segment from the cursor standing on its folder sets it to a file. */
  lemma InsertAtLast(tree: Level, parts: seq<string>)
    requires |parts| >= 1
    ensures Insert(Cursor(tree, parts, |parts| - 1), parts[|parts| - 1..]) ==
            Put(Cursor(tree, parts, |parts| - 1), parts[|parts| - 1], Leaf)
  {
    assert parts[|parts| - 1..] == [parts[|parts| - 1]];
  }

  /** The tree after recording every key of `keys`, in order. */
  function Build(keys: seq<string>): Level {
    if keys == [] then [] else Insert(Build(keys[..|keys| - 1]), Split(keys[|keys| - 1]))
  }

  /**
   * One pass of the inner `forEach` of `buildFileTree`: walk the cursor down
   * `parts`, creating folders on the way, and set the last segment to a
   * file. The in-place writes through the cursor are replayed here on
   * values: the folders passed on the way down are kept, and each is
   * written back into its parent on the way up.
   */
  method InsertKey(tree: Level, parts: seq<string>) returns (result: Level)
    requires |parts| >= 1
    ensures result == Insert(tree, parts)
  {
    var last := |parts| - 1;
    var frames: seq<Level> := [];
    var current := tree;
    var i := 0;
    while i < last
      invariant 0 <= i <= last
      invariant |frames| == i
      invariant forall k {:trigger frames[k]} :: 0 <= k < i ==> frames[k] == Cursor(tree, parts, k)
      invariant current == Cursor(tree, parts, i)
    {
      frames := frames + [current];
      current := Child(current, parts[i]);
      i := i + 1;
    }
    InsertAtLast(tree, parts);
    current := Put(current, parts[last], Leaf);
    while i > 0
      invariant 0 <= i <= last
      invariant |frames| == last
      invariant forall k {:trigger frames[k]} :: 0 <= k < last ==> frames[k] == Cursor(tree, parts, k)
      invariant current == Insert(Cursor(tree, parts, i), parts[i..])
    {
      i := i - 1;
      InsertFromCursor(tree, parts, i);
      current := Put(frames[i], parts[i], Dir(current));
    }
    result := current;
  }

  /** `buildFileTree`: record each key's segments in list order. */
  method BuildFileTree(keys: seq<string>) returns (tree: Level)
    ensures tree == Build(keys)
  {
    tree := [];
    for i := 0 to |keys|
      invariant tree == Build(keys[..i])
    {
      assert keys[..i + 1][..i] == keys[..i];
      tree := InsertKey(tree, Split(keys[i]));
    }
    assert keys[..|keys|] == keys;
  }

  // ---------------------------------------------------------------------
  // getSubtree
  // ---------------------------------------------------------------------

  /** What walking a path from a folder gives. */
  datatype Subtree =
    | Found(node: Node)
      /** Descending into a file (`null[part]` raises a TypeError); carries the segment asked for. */
    | ThroughLeaf(segment: string)

  /** Descend one segment at a time; a missing segment stops the walk with `{}`. */
  function Resolve(node: Node, path: seq<string>): Subtree
    decreases |path|
  {
    if path == [] then Found(node)
    else match node
      case Leaf => ThroughLeaf(path[0])
      case Dir(level) =>
        match Find(level, path[0])
        case None => Found(Dir([]))
        case Some(child) => Resolve(child, path[1..])
  }

  /** `getSubtree`: the `for ... of` loop over the path segments. */
  method GetSubtree(tree: Level, parts: seq<string>) returns (result: Subtree)
    ensures result == Resolve(Dir(tree), parts)
  {
    var subtree := Dir(tree);
    for i := 0 to |parts|
      invariant Resolve(Dir(tree), parts) == Resolve(subtree, parts[i..])
    {
      assert parts[i..][1..] == parts[i + 1..];
      match subtree
      case Leaf =>
        return ThroughLeaf(parts[i]);
      case Dir(level) =>
        var found := Find(level, parts[i]);
        if found.None? {
          return Found(Dir([]));
        }
        subtree := found.value;
    }
    result := Found(subtree);
  }

  // ---------------------------------------------------------------------
  // Properties of getSubtree
  // ---------------------------------------------------------------------

  /** Walking `p + q` is walking `p`, then `q` from where `p` ended. */
  lemma {:induction false} ResolveAppend(node: Node, p: seq<string>, q: seq<string>)
    ensures Resolve(node, p + q) ==
            match Resolve(node, p)
            case Found(n) => Resolve(n, q)
            case ThroughLeaf(s) => ThroughLeaf(s)
    decreases |p|
  {
    if p == [] {
      assert p + q == q;
    } else {
      assert (p + q)[0] == p[0];
      assert (p + q)[1..] == p[1..] + q;
      match node
      case Leaf =>
      case Dir(level) =>
        match Find(level, p[0])
        case None =>
          if q != [] {
            assert Resolve(Dir([]), q) == Found(Dir([]));
          }
        case Some(child) =>
          ResolveAppend(child, p[1..], q);
    }
  }

  /** Once a segment is missing at its level, the rest of the path does not matter: the result is `{}`. */
  lemma MissingSegmentGivesEmpty(tree: Level, p: seq<string>, level: Level, name: string, rest: seq<string>)
    requires Resolve(Dir(tree), p) == Found(Dir(level))
    requires Find(level, name) == None
    ensures Resolve(Dir(tree), p + [name] + rest) == Found(Dir([]))
  {
    ResolveAppend(Dir(tree), p, [name] + rest);
    assert p + [name] + rest == p + ([name] + rest);
    if rest != [] {
      assert Resolve(Dir([]), rest) == Found(Dir([]));
    }
  }

  /** The walk fails only when some proper prefix of the path ends on a file. */
  lemma {:induction false} ThroughLeafOnlyAtFile(node: Node, path: seq<string>)
    ensures Resolve(node, path).ThroughLeaf? <==>
            exists k :: 0 <= k < |path| && Resolve(node, path[..k]) == Found(Leaf)
    decreases |path|
  {
    if path == [] {
    } else {
      assert path[..0] == [];
      match node
      case Leaf =>
      case Dir(level) =>
        match Find(level, path[0])
        case None =>
          forall k | 0 < k < |path| ensures Resolve(node, path[..k]) == Found(Dir([])) {
            assert path[..k][0] == path[0];
          }
        case Some(child) =>
          ThroughLeafOnlyAtFile(child, path[1..]);
          forall k | 0 < k <= |path| ensures Resolve(node, path[..k]) == Resolve(child, path[1..][..k - 1]) {
            assert path[..k][0] == path[0];
            assert path[..k][1..] == path[1..][..k - 1];
          }
          if exists k :: 0 <= k < |path| && Resolve(node, path[..k]) == Found(Leaf) {
            var k :| 0 <= k < |path| && Resolve(node, path[..k]) == Found(Leaf);
            assert k > 0;
            assert Resolve(child, path[1..][..k - 1]) == Found(Leaf);
          }
          if Resolve(child, path[1..]).ThroughLeaf? {
            var j :| 0 <= j < |path[1..]| && Resolve(child, path[1..][..j]) == Found(Leaf);
            assert Resolve(node, path[..j + 1]) == Found(Leaf);
          }
    }
  }

  // ---------------------------------------------------------------------
  // Properties of buildFileTree
  // ---------------------------------------------------------------------

  /** After recording a key, walking its segments from the root reaches a file. */
  lemma {:induction false} InsertReachesLeaf(level: Level, parts: seq<string>)
    requires |parts| >= 1
    ensures Resolve(Dir(Insert(level, parts)), parts) == Found(Leaf)
    decreases |parts|
  {
    if |parts| == 1 {
      FindPutSame(level, parts[0], Leaf);
    } else {
      var sub := Insert(Child(level, parts[0]), parts[1..]);
      FindPutSame(level, parts[0], Dir(sub));
      InsertReachesLeaf(Child(level, parts[0]), parts[1..]);
    }
  }

  /**
   * How recording a key changes the top level: other keys are untouched; the
   * first segment keeps its place (or is appended); a key ending there makes
   * it a file even if it was a folder; a longer key reuses a folder there,
   * and creates a fresh folder where the key is missing or holds a file.
   */
  lemma InsertTopLevel(level: Level, parts: seq<string>)
    requires |parts| >= 1
    ensures forall other :: other != parts[0] ==> Find(Insert(level, parts), other) == Find(level, other)
    ensures Names(Insert(level, parts)) ==
            if parts[0] in Names(level) then Names(level) else Names(level) + [parts[0]]
    ensures |parts| == 1 ==> Find(Insert(level, parts), parts[0]) == Some(Leaf)
    ensures |parts| > 1 && Find(level, parts[0]).Some? && Find(level, parts[0]).value.Dir? ==>
              Find(Insert(level, parts), parts[0]) == Some(Dir(Insert(Find(level, parts[0]).value.entries, parts[1..])))
    ensures |parts| > 1 && (Find(level, parts[0]) == None || Find(level, parts[0]) == Some(Leaf)) ==>
              Find(Insert(level, parts), parts[0]) == Some(Dir(Insert([], parts[1..])))
  {
    var node := if |parts| == 1 then Leaf else Dir(Insert(Child(level, parts[0]), parts[1..]));
    assert Insert(level, parts) == Put(level, parts[0], node);
    forall other | other != parts[0] ensures Find(Insert(level, parts), other) == Find(level, other) {
      FindPutOther(level, parts[0], node, other);
    }
    NamesPut(level, parts[0], node);
    FindPutSame(level, parts[0], node);
  }

  /** Recording the same key twice gives the same tree as recording it once. */
  lemma {:induction false} InsertIdempotent(level: Level, parts: seq<string>)
    requires |parts| >= 1
    ensures Insert(Insert(level, parts), parts) == Insert(level, parts)
    decreases |parts|
  {
    if |parts| == 1 {
      PutTwice(level, parts[0], Leaf);
    } else {
      var sub := Insert(Child(level, parts[0]), parts[1..]);
      FindPutSame(level, parts[0], Dir(sub));
      assert Child(Insert(level, parts), parts[0]) == sub;
      InsertIdempotent(Child(level, parts[0]), parts[1..]);
      PutTwice(level, parts[0], Dir(sub));
    }
  }

  lemma {:induction false} PutTwice(level: Level, name: string, node: Node)
    ensures Put(Put(level, name, node), name, node) == Put(level, name, node)
    decreases |level|
  {
    if level != [] && level[0].name != name {
      PutTwice(level[1..], name, node);
    }
  }

  /** A file reachable after recording a key was either that key or already a file before. */
  lemma {:induction false} InsertLeavesSound(level: Level, parts: seq<string>, q: seq<string>)
    requires |parts| >= 1
    requires Resolve(Dir(Insert(level, parts)), q) == Found(Leaf)
    ensures q == parts || Resolve(Dir(level), q) == Found(Leaf)
    decreases |parts|
  {
    var node := if |parts| == 1 then Leaf else Dir(Insert(Child(level, parts[0]), parts[1..]));
    assert q != [];
    if q[0] != parts[0] {
      FindPutOther(level, parts[0], node, q[0]);
    } else {
      FindPutSame(level, parts[0], node);
      if |parts| == 1 {
        assert |q| == 1;
        assert q == [parts[0]];
      } else {
        InsertLeavesSound(Child(level, parts[0]), parts[1..], q[1..]);
        if q[1..] == parts[1..] {
          assert q == [q[0]] + q[1..];
          assert parts == [parts[0]] + parts[1..];
        } else {
          match Find(level, parts[0])
          case Some(Dir(sub)) =>
          case _ =>
            assert Resolve(Dir([]), q[1..]) != Found(Leaf);
        }
      }
    }
  }

  /** `p` is a proper prefix of `q`. */
  predicate ProperPrefix(p: seq<string>, q: seq<string>) {
    |p| < |q| && q[..|p|] == p
  }

  /** Recording a key keeps every file that is neither a folder on its way nor below it. */
  lemma {:induction false} InsertKeepsLeaf(level: Level, parts: seq<string>, q: seq<string>)
    requires |parts| >= 1
    requires Resolve(Dir(level), q) == Found(Leaf)
    requires !ProperPrefix(q, parts) && !ProperPrefix(parts, q)
    ensures Resolve(Dir(Insert(level, parts)), q) == Found(Leaf)
    decreases |parts|
  {
    var node := if |parts| == 1 then Leaf else Dir(Insert(Child(level, parts[0]), parts[1..]));
    if q[0] != parts[0] {
      FindPutOther(level, parts[0], node, q[0]);
    } else {
      FindPutSame(level, parts[0], node);
      if |parts| > 1 && |q| > 1 {
        match Find(level, parts[0])
        case Some(Dir(sub)) =>
          InsertKeepsLeaf(sub, parts[1..], q[1..]);
      }
    }
  }

  /** Every file of the built tree is the path of some key of the list. */
  lemma {:induction false} BuildLeavesAreKeys(keys: seq<string>, q: seq<string>)
    requires Resolve(Dir(Build(keys)), q) == Found(Leaf)
    ensures exists i :: 0 <= i < |keys| && Split(keys[i]) == q
    decreases |keys|
  {
    if keys != [] {
      var init := keys[..|keys| - 1];
      InsertLeavesSound(Build(init), Split(keys[|keys| - 1]), q);
      if q != Split(keys[|keys| - 1]) {
        BuildLeavesAreKeys(init, q);
        var i :| 0 <= i < |init| && Split(init[i]) == q;
        assert keys[i] == init[i];
      }
    }
  }

  /** The last key recorded is always a file of the built tree (last write wins). */
  lemma LastKeyIsLeaf(keys: seq<string>)
    requires |keys| >= 1
    ensures Resolve(Dir(Build(keys)), Split(keys[|keys| - 1])) == Found(Leaf)
  {
    InsertReachesLeaf(Build(keys[..|keys| - 1]), Split(keys[|keys| - 1]));
  }

  /** No key's path runs through another key's path. */
  predicate PrefixFree(keys: seq<string>) {
    forall i, j :: 0 <= i < |keys| && 0 <= j < |keys| ==> !ProperPrefix(Split(keys[i]), Split(keys[j]))
  }

  /** When no key's path runs through another's, every key is a file of the built tree. */
  lemma {:induction false} BuildKeepsAllKeys(keys: seq<string>, i: nat)
    requires PrefixFree(keys)
    requires i < |keys|
    ensures Resolve(Dir(Build(keys)), Split(keys[i])) == Found(Leaf)
    decreases |keys|
  {
    var n := |keys| - 1;
    var init := keys[..n];
    if i == n {
      LastKeyIsLeaf(keys);
    } else {
      assert PrefixFree(init) by {
        forall a, b | 0 <= a < |init| && 0 <= b < |init|
          ensures !ProperPrefix(Split(init[a]), Split(init[b]))
        {
          assert init[a] == keys[a] && init[b] == keys[b];
        }
      }
      assert init[i] == keys[i];
      BuildKeepsAllKeys(init, i);
      assert !ProperPrefix(Split(keys[i]), Split(keys[n]));
      assert !ProperPrefix(Split(keys[n]), Split(keys[i]));
      InsertKeepsLeaf(Build(init), Split(keys[n]), Split(keys[i]));
    }
  }

  /** Recording a key keeps every folder free of repeated keys. */
  lemma {:induction false} InsertKeepsWellFormed(level: Level, parts: seq<string>)
    requires |parts| >= 1
    requires WellFormed(level)
    ensures WellFormed(Insert(level, parts))
    decreases |parts|
  {
    var node := if |parts| == 1 then Leaf else Dir(Insert(Child(level, parts[0]), parts[1..]));
    if |parts| > 1 {
      ChildWellFormed(level, parts[0]);
      InsertKeepsWellFormed(Child(level, parts[0]), parts[1..]);
    }
    PutKeepsDistinct(level, parts[0], node);
    PutEntries(level, parts[0], node);
    var r := Put(level, parts[0], node);
    forall i | 0 <= i < |r|
      ensures match r[i].node case Leaf => true case Dir(sub) => WellFormed(sub)
    {
      if r[i] != Entry(parts[0], node) {
        var j :| 0 <= j < |level| && level[j] == r[i];
      }
    }
  }

  lemma {:induction false} ChildWellFormed(level: Level, name: string)
    requires WellFormed(level)
    ensures WellFormed(Child(level, name))
    decreases |level|
  {
    if level != [] && level[0].name != name {
      assert WellFormed(level[1..]) by {
        forall i | 0 <= i < |level[1..]|
          ensures match level[1..][i].node case Leaf => true case Dir(sub) => WellFormed(sub)
        {
          assert level[1..][i] == level[i + 1];
        }
      }
      ChildWellFormed(level[1..], name);
    }
  }

  /** The built tree never lists a key twice in any folder. */
  lemma {:induction false} BuildWellFormed(keys: seq<string>)
    ensures WellFormed(Build(keys))
    decreases |keys|
  {
    if keys != [] {
      BuildWellFormed(keys[..|keys| - 1]);
      InsertKeepsWellFormed(Build(keys[..|keys| - 1]), Split(keys[|keys| - 1]));
    }
  }
}
