/** The JPEG Huffman decoding trie (class HuffmanTable in browser/jpeg.ts),
    built by the canonical code assignment of Annex C of ITU-T T.81.

    The source represents a node as a JavaScript array of at most two
    entries, each entry either a symbol or a nested array; here that is the
    datatype `Trie`. Construction mutates the arrays in place; `Insert`
    returns the updated trie instead, including the empty nodes the source
    pushes on the way down even when the insertion then fails. */
module Huffman {
  import opened Bytes
  import opened Results
  import opened BitStream

  datatype Trie = Leaf(sym: byte) | Node(kids: seq<Trie>)

  /** No node holds more than two children. */
  predicate WellFormed(t: Trie)
  {
    match t
    case Leaf(_) => true
    case Node(kids) => |kids| <= 2 && forall i :: 0 <= i < |kids| ==> WellFormed(kids[i])
  }

  /** The symbol of the leaf reached by following `path` from `t`, if any. */
  function Lookup(t: Trie, path: seq<Bit>): Option<byte>
  {
    match t
    case Leaf(s) => if |path| == 0 then Some(s) else None
    case Node(kids) =>
      if |path| == 0 || path[0] >= |kids| then None else Lookup(kids[path[0]], path[1..])
  }

  /** A new leaf could be placed at `path`: the walk meets no leaf before the
      end and the final position is not occupied. Missing children can be
      created on the way. */
  predicate Free(t: Trie, path: seq<Bit>)
  {
    match t
    case Leaf(_) => false
    case Node(kids) =>
      |path| >= 1 && (path[0] >= |kids| || (|path| >= 2 && Free(kids[path[0]], path[1..])))
  }

  /** Lexicographic order on bit strings of equal length (strict). */
  predicate LexLess(p: seq<Bit>, q: seq<Bit>)
    requires |p| == |q|
  {
    |p| > 0 && (p[0] < q[0] || (p[0] == q[0] && LexLess(p[1..], q[1..])))
  }

  predicate IsPrefix(p: seq<Bit>, q: seq<Bit>)
  {
    |p| <= |q| && q[..|p|] == p
  }

  /** bitsFromLengths(root, element, pos): place `sym` at depth pos + 1,
      trying child 0 before child 1, creating children as needed. The bool
      is the source's return value (false or `undefined` when no slot). */
  function Insert(t: Trie, sym: byte, depth: nat): (r: (Trie, bool))
    requires WellFormed(t)
    ensures WellFormed(r.0)
    ensures r.0.Node? == t.Node?
    decreases depth
  {
    match t
    case Leaf(_) => (t, false)
    case Node(kids) =>
      if depth == 0 then
        if |kids| < 2 then (Node(kids + [Leaf(sym)]), true) else (t, false)
      else
        var k0 := if |kids| == 0 then [Node([])] else kids;
        var left := Insert(k0[0], sym, depth - 1);
        if left.1 then (Node(k0[0 := left.0]), true)
        else
          var k1 := if |k0| == 1 then k0[0 := left.0] + [Node([])] else k0[0 := left.0];
          var right := Insert(k1[1], sym, depth - 1);
          (Node(k1[1 := right.0]), right.1)
  }

  /** The insertion contract, for one call: on success the symbol sits at
      the lexicographically least free slot `p` of depth `depth + 1` and no
      other leaf changes; on failure there was no free slot at that depth
      and no leaf changes (the symbol is dropped silently). */
  ghost predicate InsertSpec(t: Trie, r: (Trie, bool), sym: byte, depth: nat, p: seq<Bit>)
  {
    && (r.1 ==>
          && |p| == depth + 1
          && Free(t, p)
          && (forall q :: |q| == depth + 1 && Free(t, q) ==> q == p || LexLess(p, q))
          && (forall q :: Lookup(r.0, q) == if q == p then Some(sym) else Lookup(t, q)))
    && (!r.1 ==>
          && (forall q :: |q| == depth + 1 ==> !Free(t, q))
          && (forall q :: Lookup(r.0, q) == Lookup(t, q)))
  }

  /** Insertion places the symbol at the lexicographically least free slot of
      depth `depth + 1`, adds no other leaf, and fails exactly when there is
      no free slot at that depth (the symbol is then dropped silently). */
  lemma {:induction false} InsertLeftmost(t: Trie, sym: byte, depth: nat) returns (p: seq<Bit>)
    requires WellFormed(t)
    ensures InsertSpec(t, Insert(t, sym, depth), sym, depth, p)
    decreases depth
  {
    p := [];
    match t
    case Leaf(_) =>
    case Node(kids) =>
      if depth == 0 {
        p := InsertHere(kids, sym);
      } else {
        var k0 := if |kids| == 0 then [Node([])] else kids;
        var left := Insert(k0[0], sym, depth - 1);
        var p0 := InsertLeftmost(k0[0], sym, depth - 1);
        if left.1 {
          p := InsertLeft(kids, sym, depth, p0);
        } else {
          var k1 := if |k0| == 1 then k0[0 := left.0] + [Node([])] else k0[0 := left.0];
          var p1 := InsertLeftmost(k1[1], sym, depth - 1);
          p := InsertRight(kids, sym, depth, p0, p1);
        }
      }
  }

  lemma InsertHere(kids: seq<Trie>, sym: byte) returns (p: seq<Bit>)
    requires WellFormed(Node(kids))
    ensures InsertSpec(Node(kids), Insert(Node(kids), sym, 0), sym, 0, p)
  {
    var t := Node(kids);
    var r := Insert(t, sym, 0);
    p := [];
    if |kids| < 2 {
      p := [|kids|];
      forall q | |q| == 1 && Free(t, q)
        ensures q == p || LexLess(p, q)
      {
        assert q[1..] == p[1..];
      }
      forall q
        ensures Lookup(r.0, q) == if q == p then Some(sym) else Lookup(t, q)
      {
        if |q| == 1 && q[0] == |kids| {
          assert q == p;
        }
      }
    }
  }

  lemma InsertLeft(kids: seq<Trie>, sym: byte, depth: nat, p0: seq<Bit>) returns (p: seq<Bit>)
    requires WellFormed(Node(kids))
    requires depth > 0
    requires var k0 := if |kids| == 0 then [Node([])] else kids;
             var left := Insert(k0[0], sym, depth - 1);
             left.1 && InsertSpec(k0[0], left, sym, depth - 1, p0)
    ensures InsertSpec(Node(kids), Insert(Node(kids), sym, depth), sym, depth, p)
  {
    var t := Node(kids);
    var k0 := if |kids| == 0 then [Node([])] else kids;
    var left := Insert(k0[0], sym, depth - 1);
    var r := Insert(t, sym, depth);
    assert r == (Node(k0[0 := left.0]), true);
    p := [0] + p0;
    assert p[1..] == p0;
    forall q | |q| == depth + 1 && Free(t, q)
      ensures q == p || LexLess(p, q)
    {
      if q[0] == 0 {
        assert Free(k0[0], q[1..]);
        assert q == [0] + q[1..];
      }
    }
    forall q
      ensures Lookup(r.0, q) == if q == p then Some(sym) else Lookup(t, q)
    {
      if |q| > 0 && q[0] == 0 {
        assert q == p <==> q[1..] == p0;
        assert Lookup(t, q) == Lookup(k0[0], q[1..]);
      }
    }
  }

  lemma InsertRight(kids: seq<Trie>, sym: byte, depth: nat, p0: seq<Bit>, p1: seq<Bit>) returns (p: seq<Bit>)
    requires WellFormed(Node(kids))
    requires depth > 0
    requires var k0 := if |kids| == 0 then [Node([])] else kids;
             var left := Insert(k0[0], sym, depth - 1);
             var k1 := if |k0| == 1 then k0[0 := left.0] + [Node([])] else k0[0 := left.0];
             && !left.1 && InsertSpec(k0[0], left, sym, depth - 1, p0)
             && InsertSpec(k1[1], Insert(k1[1], sym, depth - 1), sym, depth - 1, p1)
    ensures InsertSpec(Node(kids), Insert(Node(kids), sym, depth), sym, depth, p)
  {
    var t := Node(kids);
    var k0 := if |kids| == 0 then [Node([])] else kids;
    var left := Insert(k0[0], sym, depth - 1);
    var k1 := if |k0| == 1 then k0[0 := left.0] + [Node([])] else k0[0 := left.0];
    var right := Insert(k1[1], sym, depth - 1);
    var r := Insert(t, sym, depth);
    assert r == (Node(k1[1 := right.0]), right.1);
    if |kids| == 0 {
      var z := seq(depth, _ => 0);
      assert Free(k0[0], z);
      assert false;
    }
    forall q | |q| == depth + 1 && q[0] == 0
      ensures !Free(t, q)
    {
      assert !Free(k0[0], q[1..]);
    }
    forall q | |q| == depth + 1 && q[0] == 1
      ensures Free(t, q) <==> Free(k1[1], q[1..])
    {
    }
    forall q | |q| > 0 && q[0] == 0
      ensures Lookup(r.0, q) == Lookup(t, q)
    {
      assert Lookup(left.0, q[1..]) == Lookup(k0[0], q[1..]);
    }
    p := [];
    if right.1 {
      p := [1] + p1;
      assert p[1..] == p1;
      forall q | |q| == depth + 1 && Free(t, q)
        ensures q == p || LexLess(p, q)
      {
        assert q == [1] + q[1..];
      }
      forall q
        ensures Lookup(r.0, q) == if q == p then Some(sym) else Lookup(t, q)
      {
        if |q| > 0 && q[0] == 1 {
          assert q == p <==> q[1..] == p1;
        }
      }
    } else {
      forall q | |q| == depth + 1
        ensures !Free(t, q)
      {
        if q[0] == 1 {
          assert !Free(k1[1], q[1..]);
        }
      }
    }
  }

  /** Distinct leaves never have one code a prefix of the other. */
  lemma {:induction false} PrefixFree(t: Trie, p: seq<Bit>, q: seq<Bit>)
    requires Lookup(t, p).Some? && Lookup(t, q).Some?
    requires p != q
    ensures !IsPrefix(p, q) && !IsPrefix(q, p)
  {
    match t
    case Leaf(_) =>
    case Node(kids) =>
      if p[0] == q[0] {
        if IsPrefix(p, q) {
          assert q[1..][..|p| - 1] == p[1..];
        }
        if IsPrefix(q, p) {
          assert p[1..][..|q| - 1] == q[1..];
        }
        assert p == [p[0]] + p[1..] && q == [q[0]] + q[1..];
        PrefixFree(kids[p[0]], p[1..], q[1..]);
      }
  }

  // ---------------------------------------------------------------------
  // Construction from the 16 length counts (getHuffmanBits)

  /** The insertion depth of each symbol, in input order: group i (codes of
      length i + 1) contributes lengths[i] copies of i. */
  function Depths(lengths: seq<byte>): (r: seq<nat>)
    ensures |r| == Sum(lengths)
    ensures forall k :: 0 <= k < |r| ==> r[k] < |lengths|
  {
    if |lengths| == 0 then []
    else Depths(lengths[..|lengths| - 1]) + seq(lengths[|lengths| - 1], _ => |lengths| - 1)
  }

  function Sum(s: seq<byte>): nat
  {
    if |s| == 0 then 0 else Sum(s[..|s| - 1]) + s[|s| - 1]
  }

  /** Insert the symbols one by one at their depths, in order. */
  function InsertAll(t: Trie, depths: seq<nat>, syms: seq<byte>): (r: Trie)
    requires WellFormed(t)
    requires |depths| == |syms|
    ensures WellFormed(r)
    ensures r.Node? == t.Node?
    decreases |syms|
  {
    if |syms| == 0 then t
    else InsertAll(Insert(t, syms[0], depths[0]).0, depths[1..], syms[1..])
  }

  /** getHuffmanBits(lengths, elements), starting from the empty root. */
  function Build(lengths: seq<byte>, syms: seq<byte>): (r: Trie)
    requires |syms| == Sum(lengths)
    ensures WellFormed(r) && r.Node?
  {
    InsertAll(Node([]), Depths(lengths), syms)
  }

  /** Every leaf of a built table holds one of the input symbols, at a depth
      between 1 and the number of length groups. */
  lemma {:induction false} InsertAllLeaves(t: Trie, depths: seq<nat>, syms: seq<byte>, bound: nat, path: seq<Bit>)
    requires WellFormed(t)
    requires |depths| == |syms|
    requires forall k :: 0 <= k < |depths| ==> depths[k] < bound
    requires Lookup(InsertAll(t, depths, syms), path).Some?
    ensures Lookup(t, path).Some? || (1 <= |path| <= bound && Lookup(InsertAll(t, depths, syms), path).value in syms)
    decreases |syms|
  {
    if |syms| > 0 {
      var t1 := Insert(t, syms[0], depths[0]).0;
      var p := InsertLeftmost(t, syms[0], depths[0]);
      InsertAllLeaves(t1, depths[1..], syms[1..], bound, path);
      if Lookup(t1, path).Some? && !Lookup(t, path).Some? {
        assert path == p;
        assert InsertAll(t, depths, syms) == InsertAll(t1, depths[1..], syms[1..]);
        InsertAllKeeps(t1, depths[1..], syms[1..], path);
      }
    }
  }

  /** Later insertions never remove or change an existing leaf. */
  lemma {:induction false} InsertAllKeeps(t: Trie, depths: seq<nat>, syms: seq<byte>, path: seq<Bit>)
    requires WellFormed(t)
    requires |depths| == |syms|
    requires Lookup(t, path).Some?
    ensures Lookup(InsertAll(t, depths, syms), path) == Lookup(t, path)
    decreases |syms|
  {
    if |syms| > 0 {
      var p := InsertLeftmost(t, syms[0], depths[0]);
      var t1 := Insert(t, syms[0], depths[0]).0;
      if path == p && Insert(t, syms[0], depths[0]).1 {
        FreeIsNotLeaf(t, p);
      }
      InsertAllKeeps(t1, depths[1..], syms[1..], path);
    }
  }

  /** A free slot holds no leaf. */
  lemma {:induction false} FreeIsNotLeaf(t: Trie, p: seq<Bit>)
    requires Free(t, p)
    ensures Lookup(t, p).None?
  {
    match t
    case Leaf(_) =>
    case Node(kids) =>
      if p[0] < |kids| {
        FreeIsNotLeaf(kids[p[0]], p[1..]);
      }
  }

  lemma BuildLeaves(lengths: seq<byte>, syms: seq<byte>, path: seq<Bit>)
    requires |syms| == Sum(lengths)
    requires Lookup(Build(lengths, syms), path).Some?
    ensures 1 <= |path| <= |lengths|
    ensures Lookup(Build(lengths, syms), path).value in syms
  {
    var depths := Depths(lengths);
    assert WellFormed(Node([]));
    assert Build(lengths, syms) == InsertAll(Node([]), depths, syms);
    InsertAllLeaves(Node([]), depths, syms, |lengths|, path);
  }

  /** The table after the first k symbols have been inserted. */
  function BuiltUpTo(lengths: seq<byte>, syms: seq<byte>, k: nat): (r: Trie)
    requires |syms| == Sum(lengths) && k <= |syms|
    ensures WellFormed(r) && r.Node?
  {
    InsertAll(Node([]), Depths(lengths)[..k], syms[..k])
  }

  /** Inserting a list is inserting its first k entries, then the rest. */
  lemma {:induction false} InsertAllSplit(t: Trie, depths: seq<nat>, syms: seq<byte>, k: nat)
    requires WellFormed(t)
    requires |depths| == |syms| && k <= |syms|
    ensures InsertAll(t, depths, syms) == InsertAll(InsertAll(t, depths[..k], syms[..k]), depths[k..], syms[k..])
    decreases k
  {
    if k == 0 {
      assert depths[..0] == [] && syms[..0] == [];
      assert depths[0..] == depths && syms[0..] == syms;
    } else {
      var t1 := Insert(t, syms[0], depths[0]).0;
      InsertAllSplit(t1, depths[1..], syms[1..], k - 1);
      assert depths[..k][1..] == depths[1..][..k - 1];
      assert syms[..k][1..] == syms[1..][..k - 1];
      assert depths[1..][k - 1..] == depths[k..];
      assert syms[1..][k - 1..] == syms[k..];
    }
  }

  /** The canonical code assignment over a whole build: the k-th symbol
      (in input order) goes to the lexicographically least slot of length
      Depths(lengths)[k] + 1 left free by the symbols before it, and the
      finished table decodes that code to it. When no such slot is left the
      symbol is dropped. */
  lemma BuildPlaces(lengths: seq<byte>, syms: seq<byte>, k: nat) returns (c: seq<Bit>)
    requires |syms| == Sum(lengths) && k < |syms|
    ensures var before := BuiltUpTo(lengths, syms, k);
            var depth := Depths(lengths)[k];
            Insert(before, syms[k], depth).1 ==>
              && |c| == depth + 1
              && Free(before, c)
              && (forall q :: |q| == depth + 1 && Free(before, q) ==> q == c || LexLess(c, q))
              && Lookup(Build(lengths, syms), c) == Some(syms[k])
    ensures var before := BuiltUpTo(lengths, syms, k);
            var depth := Depths(lengths)[k];
            !Insert(before, syms[k], depth).1 ==> forall q :: |q| == depth + 1 ==> !Free(before, q)
  {
    var depths := Depths(lengths);
    var before := BuiltUpTo(lengths, syms, k);
    assert WellFormed(Node([]));
    InsertAllSplit(Node([]), depths, syms, k);
    assert Build(lengths, syms) == InsertAll(before, depths[k..], syms[k..]);
    var after := Insert(before, syms[k], depths[k]).0;
    assert depths[k..][1..] == depths[k + 1..] && syms[k..][1..] == syms[k + 1..];
    assert InsertAll(before, depths[k..], syms[k..]) == InsertAll(after, depths[k + 1..], syms[k + 1..]);
    c := InsertLeftmost(before, syms[k], depths[k]);
    if Insert(before, syms[k], depths[k]).1 {
      assert Lookup(after, c) == Some(syms[k]);
      InsertAllKeeps(after, depths[k + 1..], syms[k + 1..], c);
    }
  }

  // ---------------------------------------------------------------------
  // Decoding (find / getCode)

  /** The root has exactly one child: find returns it without reading a bit. */
  predicate SingleChild(t: Trie)
  {
    t.Node? && |t.kids| == 1
  }

  /** The `while (Array.isArray(r)) r = r[st.getBit()]` walk. A missing child
      is `undefined` in the source, which stops the walk: None here. */
  function Descend(t: Trie, s: Stream): (r: (Option<byte>, Stream))
    ensures r.1.bits == s.bits && r.1.pos >= s.pos
  {
    match t
    case Leaf(sym) => (Some(sym), s)
    case Node(kids) =>
      var b := GetBit(s);
      if b.0 < |kids| then Descend(kids[b.0], b.1) else (None, b.1)
  }

  /** The walk is sound: a symbol it returns is the one the trie holds at
      the bits it consumed. */
  lemma {:induction false} DescendSound(t: Trie, s: Stream)
    ensures var r := Descend(t, s);
            r.0.Some? ==> Lookup(t, NextBits(s, r.1.pos - s.pos)) == r.0
  {
    match t
    case Leaf(_) =>
    case Node(kids) =>
      var b := GetBit(s);
      if b.0 < |kids| {
        DescendSound(kids[b.0], b.1);
        var r := Descend(kids[b.0], b.1);
        assert NextBits(s, r.1.pos - s.pos)[1..] == NextBits(b.1, r.1.pos - b.1.pos);
      }
  }

  /** find(st) == getCode(st): the getCode loop never repeats, because a
      symbol is a byte and so is never -1. A single-child root whose child is
      a subtree makes the source return that array: None here. */
  function Find(root: Trie, s: Stream): (r: (Option<byte>, Stream))
    ensures r.1.bits == s.bits && r.1.pos >= s.pos
    ensures SingleChild(root) ==> r.1 == s && (root.kids[0].Leaf? <==> r.0.Some?)
    ensures SingleChild(root) && r.0.Some? ==> r.0 == Some(root.kids[0].sym)
  {
    if SingleChild(root) then
      (if root.kids[0].Leaf? then Some(root.kids[0].sym) else None, s)
    else Descend(root, s)
  }

  /** Outside the single-child case, a symbol find returns is the trie's
      symbol at exactly the bits it consumed. */
  lemma FindSound(root: Trie, s: Stream)
    requires !SingleChild(root)
    ensures var r := Find(root, s);
            r.0.Some? ==> Lookup(root, NextBits(s, r.1.pos - s.pos)) == r.0
  {
    DescendSound(root, s);
  }

  /** Decoding the bits of a symbol's code yields that symbol and consumes
      exactly the code's length. */
  lemma {:induction false} DescendCode(t: Trie, path: seq<Bit>, s: Stream)
    requires Lookup(t, path).Some?
    requires NextBits(s, |path|) == path
    ensures Descend(t, s) == (Lookup(t, path), Stream(s.bits, s.pos + |path|))
  {
    match t
    case Leaf(_) =>
    case Node(kids) =>
      var b := GetBit(s);
      assert b.0 == path[0];
      var tail := NextBits(b.1, |path| - 1);
      forall k | 0 <= k < |path| - 1
        ensures tail[k] == path[1..][k]
      {
        assert NextBits(s, |path|)[k + 1] == BitAt(s.bits, s.pos + k + 1);
      }
      DescendCode(kids[path[0]], path[1..], b.1);
  }

  lemma FindCode(root: Trie, path: seq<Bit>, s: Stream)
    requires !SingleChild(root)
    requires Lookup(root, path).Some?
    requires NextBits(s, |path|) == path
    ensures Find(root, s) == (Lookup(root, path), Stream(s.bits, s.pos + |path|))
  {
    DescendCode(root, path, s);
  }
}
