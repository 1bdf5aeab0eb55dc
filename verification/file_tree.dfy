/**
 * The in-memory file tree: files and directories whose children form an
 * insertion-ordered map from names to nodes, walked segment by segment.
 */
module FileTree {
  import opened Wrappers

  /** `FileMetadata`; timestamps are readings of an abstract millisecond clock. */
  datatype Meta = Meta(created: nat, modified: nat, size: nat, permissions: string, isExecutable: bool)

  /** `FileSystemNode`: a file carries content, a directory carries children. */
  datatype Node =
    | File(name: string, content: string, meta: Meta)
    | Dir(name: string, children: seq<Child>, meta: Meta)

  /** One entry of a directory's children map. */
  datatype Child = Child(key: string, node: Node)

  function ChildKeys(ch: seq<Child>): (ks: seq<string>)
    ensures |ks| == |ch|
    ensures forall i :: 0 <= i < |ch| ==> ks[i] == ch[i].key
  {
    if |ch| == 0 then [] else [ch[0].key] + ChildKeys(ch[1..])
  }

  predicate UniqueChildKeys(ch: seq<Child>) {
    forall i, j :: 0 <= i < j < |ch| ==> ch[i].key != ch[j].key
  }

  // The children keep their own copy of the ordered-map operations of `OrderedMap`, over the
  // named `key` and `node` fields of `Child` rather than over pairs: every walk of the tree,
  // the stored form and the commands refer to an entry by those names.

  /** `children.get(key)`. */
  function FindChild(ch: seq<Child>, key: string): (r: Option<Node>)
    ensures r.None? <==> key !in ChildKeys(ch)
  {
    if |ch| == 0 then None else if ch[0].key == key then Some(ch[0].node) else FindChild(ch[1..], key)
  }

  /** `children.set(key, node)`: replaces in place, or appends a new entry. */
  function SetChild(ch: seq<Child>, key: string, node: Node): (r: seq<Child>)
    ensures key in ChildKeys(ch) ==> ChildKeys(r) == ChildKeys(ch)
    ensures key !in ChildKeys(ch) ==> r == ch + [Child(key, node)]
  {
    if |ch| == 0 then [Child(key, node)]
    else if ch[0].key == key then [Child(key, node)] + ch[1..]
    else
      assert ChildKeys(ch) == [ch[0].key] + ChildKeys(ch[1..]);
      [ch[0]] + SetChild(ch[1..], key, node)
  }

  /** `children.delete(key)`. */
  function RemoveChild(ch: seq<Child>, key: string): (r: seq<Child>)
    ensures |r| <= |ch|
    ensures key !in ChildKeys(ch) ==> r == ch
  {
    if |ch| == 0 then [] else if ch[0].key == key then ch[1..] else [ch[0]] + RemoveChild(ch[1..], key)
  }

  lemma ChildKeysAppend(ch: seq<Child>, c: Child)
    ensures ChildKeys(ch + [c]) == ChildKeys(ch) + [c.key]
  {
  }

  lemma {:induction false} FindSetChild(ch: seq<Child>, key: string, node: Node, k: string)
    ensures FindChild(SetChild(ch, key, node), k) == if k == key then Some(node) else FindChild(ch, k)
    decreases |ch|
  {
    if |ch| > 0 && ch[0].key != key {
      FindSetChild(ch[1..], key, node, k);
    }
  }

  lemma {:induction false} SetChildUnique(ch: seq<Child>, key: string, node: Node)
    requires UniqueChildKeys(ch)
    ensures UniqueChildKeys(SetChild(ch, key, node))
    decreases |ch|
  {
    if |ch| > 0 && ch[0].key != key {
      SetChildUnique(ch[1..], key, node);
      var rest := SetChild(ch[1..], key, node);
      forall i | 0 <= i < |rest| ensures rest[i].key != ch[0].key {
        if key in ChildKeys(ch[1..]) {
          assert ChildKeys(rest)[i] == ChildKeys(ch[1..])[i];
        } else {
          assert rest == ch[1..] + [Child(key, node)];
        }
      }
    }
  }

  lemma {:induction false} FindRemoveChild(ch: seq<Child>, key: string, k: string)
    requires UniqueChildKeys(ch)
    ensures FindChild(RemoveChild(ch, key), k) == if k == key then None else FindChild(ch, k)
    decreases |ch|
  {
    if |ch| > 0 {
      if ch[0].key == key {
        if k == key {
          assert forall i :: 0 <= i < |ch| - 1 ==> ch[1..][i].key != key;
          assert key !in ChildKeys(ch[1..]);
        }
      } else {
        FindRemoveChild(ch[1..], key, k);
      }
    }
  }

  lemma {:induction false} RemoveChildUnique(ch: seq<Child>, key: string)
    requires UniqueChildKeys(ch)
    ensures UniqueChildKeys(RemoveChild(ch, key))
    ensures forall i :: 0 <= i < |RemoveChild(ch, key)| ==> RemoveChild(ch, key)[i] in ch
    decreases |ch|
  {
    if |ch| > 0 && ch[0].key != key {
      RemoveChildUnique(ch[1..], key);
    }
  }

  /** Position of the entry with key `key`. */
  function ChildIndex(ch: seq<Child>, key: string): (i: nat)
    requires key in ChildKeys(ch)
    ensures i < |ch| && ch[i].key == key
  {
    if ch[0].key == key then 0
    else
      assert key in ChildKeys(ch[1..]) by { assert ChildKeys(ch) == [ch[0].key] + ChildKeys(ch[1..]); }
      ChildIndex(ch[1..], key) + 1
  }

  /** Deleting a present key removes exactly its entry; the others keep their order. */
  lemma {:induction false} RemoveChildAt(ch: seq<Child>, key: string)
    requires key in ChildKeys(ch)
    ensures var i := ChildIndex(ch, key); RemoveChild(ch, key) == ch[..i] + ch[i + 1..]
    decreases |ch|
  {
    if ch[0].key == key {
      assert ch[..0] + ch[1..] == ch[1..];
    } else {
      assert key in ChildKeys(ch[1..]) by { assert ChildKeys(ch) == [ch[0].key] + ChildKeys(ch[1..]); }
      RemoveChildAt(ch[1..], key);
      SpliceCons(ch, ChildIndex(ch[1..], key));
    }
  }

  lemma SpliceCons<T>(m: seq<T>, j: nat)
    requires j + 1 < |m|
    ensures [m[0]] + (m[1..][..j] + m[1..][j + 1..]) == m[..j + 1] + m[j + 2..]
  {
    assert [m[0]] + m[1..][..j] == m[..j + 1];
    assert m[1..][j + 1..] == m[j + 2..];
  }

  /** Every directory's children have distinct names. */
  predicate Valid(n: Node) {
    match n
    case File(_, _, _) => true
    case Dir(_, ch, _) => UniqueChildKeys(ch) && forall i :: 0 <= i < |ch| ==> Valid(ch[i].node)
  }

  /** The loop of `getNode`: follow one child per segment; a file has no children. */
  function Walk(n: Node, segs: seq<string>): Option<Node>
    decreases |segs|
  {
    if |segs| == 0 then Some(n)
    else match n
      case File(_, _, _) => None
      case Dir(_, ch, _) =>
        match FindChild(ch, segs[0])
        case None => None
        case Some(c) => Walk(c, segs[1..])
  }

  /** The tree with the node at `segs` replaced by `sub`; every directory on the way keeps its
      name, metadata and entry order. */
  function ReplaceAt(n: Node, segs: seq<string>, sub: Node): (r: Node)
    requires Walk(n, segs).Some?
    ensures |segs| > 0 ==>
      && r.Dir? && n.Dir? && r.name == n.name && r.meta == n.meta
      && ChildKeys(r.children) == ChildKeys(n.children)
    decreases |segs|
  {
    if |segs| == 0 then sub
    else
      var c := FindChild(n.children, segs[0]).value;
      Dir(n.name, SetChild(n.children, segs[0], ReplaceAt(c, segs[1..], sub)), n.meta)
  }

  lemma {:induction false} WalkConcat(n: Node, a: seq<string>, b: seq<string>)
    ensures Walk(n, a + b) == if Walk(n, a).Some? then Walk(Walk(n, a).value, b) else None
    decreases |a|
  {
    if |a| == 0 {
      assert a + b == b;
    } else {
      assert (a + b)[0] == a[0] && (a + b)[1..] == a[1..] + b;
      if n.Dir? && FindChild(n.children, a[0]).Some? {
        WalkConcat(FindChild(n.children, a[0]).value, a[1..], b);
      }
    }
  }

  /** Below the replaced position, the new tree is the replacement. */
  lemma {:induction false} WalkReplaceAt(n: Node, segs: seq<string>, sub: Node, rest: seq<string>)
    requires Walk(n, segs).Some?
    ensures Walk(ReplaceAt(n, segs, sub), segs + rest) == Walk(sub, rest)
    decreases |segs|
  {
    if |segs| == 0 {
      assert segs + rest == rest;
    } else {
      var c := FindChild(n.children, segs[0]).value;
      FindSetChild(n.children, segs[0], ReplaceAt(c, segs[1..], sub), segs[0]);
      assert (segs + rest)[0] == segs[0] && (segs + rest)[1..] == segs[1..] + rest;
      WalkReplaceAt(c, segs[1..], sub, rest);
    }
  }

  /** Paths that leave the replaced position's branch see the old tree. */
  lemma {:induction false} WalkReplaceAway(n: Node, segs: seq<string>, sub: Node, q: seq<string>)
    requires Walk(n, segs).Some?
    requires !(q <= segs) && !(segs <= q)
    ensures Walk(ReplaceAt(n, segs, sub), q) == Walk(n, q)
    decreases |segs|
  {
    var c := FindChild(n.children, segs[0]).value;
    var r := ReplaceAt(n, segs, sub);
    FindSetChild(n.children, segs[0], ReplaceAt(c, segs[1..], sub), q[0]);
    if q[0] == segs[0] {
      WalkReplaceAway(c, segs[1..], sub, q[1..]);
    }
  }

  lemma {:induction false} ReplaceAtValid(n: Node, segs: seq<string>, sub: Node)
    requires Walk(n, segs).Some? && Valid(n) && Valid(sub)
    ensures Valid(ReplaceAt(n, segs, sub))
    decreases |segs|
  {
    if |segs| > 0 {
      var c := FindChild(n.children, segs[0]).value;
      var c' := ReplaceAt(c, segs[1..], sub);
      FindChildValid(n.children, segs[0]);
      ReplaceAtValid(c, segs[1..], sub);
      SetChildUnique(n.children, segs[0], c');
      SetChildValid(n.children, segs[0], c');
    }
  }

  lemma {:induction false} FindChildValid(ch: seq<Child>, key: string)
    requires forall i :: 0 <= i < |ch| ==> Valid(ch[i].node)
    ensures FindChild(ch, key).Some? ==> Valid(FindChild(ch, key).value)
    decreases |ch|
  {
    if |ch| > 0 && ch[0].key != key {
      FindChildValid(ch[1..], key);
    }
  }

  lemma {:induction false} SetChildValid(ch: seq<Child>, key: string, node: Node)
    requires forall i :: 0 <= i < |ch| ==> Valid(ch[i].node)
    requires Valid(node)
    ensures forall i :: 0 <= i < |SetChild(ch, key, node)| ==> Valid(SetChild(ch, key, node)[i].node)
    decreases |ch|
  {
    if |ch| > 0 && ch[0].key != key {
      SetChildValid(ch[1..], key, node);
    }
  }
}
