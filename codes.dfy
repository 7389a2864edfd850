/** Code assignment: every leaf's code is its path from the root, 0 for left, 1 for right. */
module Codes {
  import opened Alphabet
  import opened HuffmanTree

  /** Byte -> code (the source's unordered_map<char, string> huffmanCodes). */
  type CodeTable = map<Byte, Code>

  /** buildHuffmanCodes as written. A node counts as a leaf when its byte is non-zero, so
      a leaf holding byte 0 is taken for an internal node; its (null) children record
      nothing and byte 0 gets no code. A root that is itself a leaf gets the code it was
      called with, the empty string. Later assignments overwrite earlier ones, which is
      the right-biased map union. */
  function CodesAsWritten(t: Tree, prefix: Code): (codes: CodeTable)
    ensures codes.Keys == LeafSymbols(t) - {0}
  {
    match t
    case Leaf(s, _) => if s != 0 then map[s := prefix] else map[]
    case Node(l, r, _) => CodesAsWritten(l, prefix + [0]) + CodesAsWritten(r, prefix + [1])
  }

  /** The walk of buildHuffmanCodes with leaves told from internal nodes by their shape
      rather than by their byte: every leaf gets the path that leads to it. */
  function PathCodes(t: Tree, prefix: Code): (codes: CodeTable)
    ensures codes.Keys == LeafSymbols(t)
  {
    match t
    case Leaf(s, _) => map[s := prefix]
    case Node(l, r, _) => PathCodes(l, prefix + [0]) + PathCodes(r, prefix + [1])
  }

  /** The corrected code table: every leaf gets its path; a tree that is a single leaf
      gets the one-bit code [0] instead of the empty code. */
  function AssignCodes(t: Tree): (codes: CodeTable)
    ensures codes.Keys == LeafSymbols(t)
    ensures t.Leaf? ==> codes[t.sym] == [0]
  {
    if t.Leaf? then map[t.sym := [0]] else PathCodes(t, [])
  }

  /** Following `path` from the root of `t` (0 = left, 1 = right) ends at the leaf of `s`. */
  predicate LeadsTo(t: Tree, path: Code, s: Byte) {
    match t
    case Leaf(x, _) => path == [] && x == s
    case Node(l, r, _) => |path| > 0 && LeadsTo(if path[0] == 0 then l else r, path[1..], s)
  }

  /** No code is a prefix of the code of another byte. */
  predicate PrefixFree(codes: CodeTable) {
    forall a, b | a in codes && b in codes && a != b :: !IsPrefix(codes[a], codes[b])
  }

  /** Every byte has at least one bit of code. */
  predicate NonEmptyCodes(codes: CodeTable) {
    forall a | a in codes :: |codes[a]| > 0
  }

  /** The code table of the walk from `prefix`: one code per leaf byte; each code is
      `prefix` followed by the path to that byte's leaf (so its length past `prefix` is
      the leaf's depth), and below an internal node every code is longer than `prefix`. */
  lemma PathCodesShape(t: Tree, prefix: Code)
    ensures PathCodes(t, prefix).Keys == LeafSymbols(t)
    ensures forall s | s in PathCodes(t, prefix) ::
              IsPrefix(prefix, PathCodes(t, prefix)[s])
              && LeadsTo(t, PathCodes(t, prefix)[s][|prefix|..], s)
    ensures t.Node? ==> forall s | s in PathCodes(t, prefix) :: |PathCodes(t, prefix)[s]| > |prefix|
  {
    PathCodesLead(t, prefix);
  }

  /** Each code of the walk is `prefix` followed by the path to its byte's leaf. */
  lemma {:induction false} PathCodesLead(t: Tree, prefix: Code)
    ensures forall s | s in PathCodes(t, prefix) ::
              IsPrefix(prefix, PathCodes(t, prefix)[s])
              && LeadsTo(t, PathCodes(t, prefix)[s][|prefix|..], s)
  {
    match t
    case Leaf(_, _) =>
      assert prefix[|prefix|..] == [];
    case Node(l, r, _) =>
      var pl, pr := prefix + [0], prefix + [1];
      PathCodesLead(l, pl);
      PathCodesLead(r, pr);
      ChildLeads(t, l, prefix, 0);
      ChildLeads(t, r, prefix, 1);
      var codes := PathCodes(t, prefix);
      forall s | s in codes
        ensures IsPrefix(prefix, codes[s]) && LeadsTo(t, codes[s][|prefix|..], s)
      {
        if s in PathCodes(r, pr) {
          assert codes[s] == PathCodes(r, pr)[s];
        } else {
          assert s in PathCodes(l, pl) && codes[s] == PathCodes(l, pl)[s];
        }
      }
  }

  /** Every code of the walk below child `bit` of `t` runs through `t` itself. */
  lemma ChildLeads(t: Tree, child: Tree, prefix: Code, bit: Bit)
    requires t.Node? && child == if bit == 0 then t.left else t.right
    requires forall s | s in PathCodes(child, prefix + [bit]) ::
               IsPrefix(prefix + [bit], PathCodes(child, prefix + [bit])[s])
               && LeadsTo(child, PathCodes(child, prefix + [bit])[s][|prefix + [bit]|..], s)
    ensures forall s | s in PathCodes(child, prefix + [bit]) ::
              IsPrefix(prefix, PathCodes(child, prefix + [bit])[s])
              && LeadsTo(t, PathCodes(child, prefix + [bit])[s][|prefix|..], s)
  {
    var codes := PathCodes(child, prefix + [bit]);
    forall s | s in codes
      ensures IsPrefix(prefix, codes[s]) && LeadsTo(t, codes[s][|prefix|..], s)
    {
      ChildCode(t, prefix, bit, codes[s], s);
    }
  }

  /** A code that runs through child `bit` of `t` runs through `t` itself. */
  lemma ChildCode(t: Tree, prefix: Code, bit: Bit, c: Code, s: Byte)
    requires t.Node?
    requires IsPrefix(prefix + [bit], c)
    requires LeadsTo(if bit == 0 then t.left else t.right, c[|prefix| + 1..], s)
    ensures IsPrefix(prefix, c) && LeadsTo(t, c[|prefix|..], s) && |c| > |prefix|
  {
    var p := prefix + [bit];
    assert c[..|prefix|] == c[..|p|][..|prefix|];
    assert c[|prefix|..][0] == p[|prefix|];
    assert c[|prefix|..][1..] == c[|p|..];
  }

  /** The walk from any prefix gives a prefix-free table: two different bytes sit at two
      different leaves, and the paths to two different leaves part at some step. */
  lemma {:induction false} PathCodesPrefixFree(t: Tree, prefix: Code)
    ensures PrefixFree(PathCodes(t, prefix))
  {
    match t
    case Leaf(_, _) =>
    case Node(l, r, _) =>
      var pl, pr := prefix + [0], prefix + [1];
      var left, right := PathCodes(l, pl), PathCodes(r, pr);
      PathCodesPrefixFree(l, pl);
      PathCodesPrefixFree(r, pr);
      PathCodesShape(l, pl);
      PathCodesShape(r, pr);
      var codes := PathCodes(t, prefix);
      forall a, b | a in codes && b in codes && a != b
        ensures !IsPrefix(codes[a], codes[b])
      {
        // Within one child the child's table is prefix-free already. Across the two
        // children, the codes differ at position |prefix|, which both of them reach.
        if (a in right) != (b in right) {
          var k := |prefix|;
          FirstStep(codes[a], prefix, if a in right then 1 else 0);
          FirstStep(codes[b], prefix, if b in right then 1 else 0);
          DifferAt(codes[a], codes[b], k);
        }
      }
  }

  /** A code that extends `prefix + [bit]` has `bit` at position |prefix|. */
  lemma FirstStep(c: Code, prefix: Code, bit: Bit)
    requires IsPrefix(prefix + [bit], c)
    ensures |c| > |prefix| && c[|prefix|] == bit
  {
    assert c[..|prefix| + 1][|prefix|] == bit;
  }

  /** Two bit strings that differ at a position both reach are not prefixes of each other. */
  lemma DifferAt(x: Code, y: Code, k: nat)
    requires k < |x| && k < |y| && x[k] != y[k]
    ensures !IsPrefix(x, y) && !IsPrefix(y, x)
  {
  }

  /** The as-written table is the path table with byte 0 missing. */
  lemma {:induction false} AsWrittenDropsZero(t: Tree, prefix: Code)
    ensures CodesAsWritten(t, prefix) == PathCodes(t, prefix) - {0}
  {
    match t
    case Leaf(s, _) =>
      if s == 0 {
        assert PathCodes(t, prefix).Keys == {0};
      }
    case Node(l, r, _) =>
      AsWrittenDropsZero(l, prefix + [0]);
      AsWrittenDropsZero(r, prefix + [1]);
      RemoveFromUnion(PathCodes(l, prefix + [0]), PathCodes(r, prefix + [1]), 0);
  }

  /** Removing a key from both sides of a map union removes it from the union. */
  lemma RemoveFromUnion<K, V>(a: map<K, V>, b: map<K, V>, k: K)
    ensures (a - {k}) + (b - {k}) == (a + b) - {k}
  {
    var lhs, rhs := (a - {k}) + (b - {k}), (a + b) - {k};
    forall x
      ensures x in lhs <==> x in rhs
    {
    }
    forall x | x in lhs
      ensures lhs[x] == rhs[x]
    {
    }
  }

  /** Without byte 0 and with at least two leaves, the as-written table is the corrected one. */
  lemma AsWrittenAgrees(t: Tree)
    requires t.Node? && 0 !in LeafSymbols(t)
    ensures CodesAsWritten(t, []) == AssignCodes(t)
  {
    AsWrittenDropsZero(t, []);
    PathCodesShape(t, []);
    assert PathCodes(t, []) - {0} == PathCodes(t, []);
  }

  /** The corrected table has a code for exactly the leaf bytes, the codes are non-empty
      and prefix-free, and below an internal root each code is the path to its byte. */
  lemma AssignCodesValid(t: Tree)
    ensures AssignCodes(t).Keys == LeafSymbols(t)
    ensures PrefixFree(AssignCodes(t))
    ensures NonEmptyCodes(AssignCodes(t))
    ensures t.Node? ==> forall s | s in AssignCodes(t) :: LeadsTo(t, AssignCodes(t)[s], s)
  {
    if t.Node? {
      PathCodesShape(t, []);
      PathCodesPrefixFree(t, []);
      var codes := AssignCodes(t);
      forall s | s in codes
        ensures LeadsTo(t, codes[s], s)
      {
        assert codes[s][0..] == codes[s];
      }
    }
  }
}
