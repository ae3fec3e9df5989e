/**
 * The Huffman compressor: counts characters, merges heap nodes two at a
 * time (prefixing 0 to the codes of the first node popped and 1 to those
 * of the second), encodes text by concatenating codes and decodes greedily
 * by growing a buffer until it equals a code.
 *
 * Which node `heappop` returns depends on the library's heap layout and on
 * Python's list ordering; here it is a parameter `pick`, and everything
 * below holds whichever node is popped.
 */
module Huffman {
  import opened Wrappers

  type Code = seq<bool>

  /** A `[char, code]` entry. */
  type Pair = (char, Code)

  /** A heap entry `[weight, [char, code], [char, code], ...]`. */
  datatype Node = Node(weight: nat, pairs: seq<Pair>)

  /** The code table: a dictionary, kept in its insertion order. */
  type Table = seq<Pair>

  predicate Unique<T(==)>(s: seq<T>)
  {
    forall i, j :: 0 <= i < j < |s| ==> s[i] != s[j]
  }

  /** Occurrences of `c` in `s`. */
  function Count(s: string, c: char): nat
  {
    if s == [] then 0 else Count(s[..|s| - 1], c) + (if s[|s| - 1] == c then 1 else 0)
  }

  /** The distinct characters of `s` in order of first occurrence: the keys of `Counter(s)`. */
  function Chars(s: string): (r: seq<char>)
    ensures Unique(r)
    ensures forall c :: c in r <==> c in s
  {
    if s == [] then []
    else
      var p := Chars(s[..|s| - 1]);
      assert s == s[..|s| - 1] + [s[|s| - 1]];
      if s[|s| - 1] in p then p else p + [s[|s| - 1]]
  }

  /** The heap as first built: one node per distinct character, weighted twice its count, with an empty code. */
  function Leaves(text: string): seq<Node>
  {
    var keys := Chars(text);
    seq(|keys|, k requires 0 <= k < |keys| => Node(2 * Count(text, keys[k]), [(keys[k], [])]))
  }

  /** Every code with `bit` put in front. */
  function Prefix(bit: bool, pairs: seq<Pair>): (r: seq<Pair>)
    ensures |r| == |pairs|
  {
    seq(|pairs|, k requires 0 <= k < |pairs| => (pairs[k].0, [bit] + pairs[k].1))
  }

  /** The node pushed back after popping `low` and then `high`. */
  function Merge(low: Node, high: Node): Node
  {
    Node(low.weight + high.weight, Prefix(false, low.pairs) + Prefix(true, high.pairs))
  }

  function RemoveAt<T>(s: seq<T>, i: nat): (r: seq<T>)
    requires i < |s|
    ensures |r| == |s| - 1
  {
    s[..i] + s[i + 1..]
  }

  /** The position `heappop` takes from a non-empty heap. */
  function Pick(pick: seq<Node> -> nat, heap: seq<Node>): (i: nat)
    requires heap != []
    ensures i < |heap|
  {
    pick(heap) % |heap|
  }

  /** One round of the merge loop: pop `low`, pop `high`, push their merge. */
  function Step(heap: seq<Node>, pick: seq<Node> -> nat): (r: seq<Node>)
    requires |heap| >= 2
    ensures |r| == |heap| - 1
  {
    var low := heap[Pick(pick, heap)];
    var rest := RemoveAt(heap, Pick(pick, heap));
    var high := rest[Pick(pick, rest)];
    RemoveAt(rest, Pick(pick, rest)) + [Merge(low, high)]
  }

  /** The heap after the merge loop, which runs until at most one node is left. */
  function Merged(heap: seq<Node>, pick: seq<Node> -> nat): seq<Node>
    decreases |heap|
  {
    if |heap| <= 1 then heap else Merged(Step(heap, pick), pick)
  }

  /** What `build_tree` returns: the entries of the last node, or the error `heappop` raises on an empty heap. */
  function BuildTree(text: string, pick: seq<Node> -> nat): Result<Table>
  {
    var heap := Merged(Leaves(text), pick);
    if heap == [] then Failure("index out of range") else Success(heap[0].pairs)
  }

  /** The table as a dictionary; a later entry for the same key wins. */
  function AsMap(t: Table): map<char, Code>
  {
    if t == [] then map[] else AsMap(t[..|t| - 1])[t[|t| - 1].0 := t[|t| - 1].1]
  }

  /** `reverse_tree`: code to character; a later entry with the same code wins. */
  function Reverse(t: Table): map<Code, char>
  {
    if t == [] then map[] else Reverse(t[..|t| - 1])[t[|t| - 1].1 := t[|t| - 1].0]
  }

  /** `bitarray.encode`: the codes of the characters, one after the other. */
  function Encode(codes: map<char, Code>, text: string): Code
    requires forall i :: 0 <= i < |text| ==> text[i] in codes
  {
    if text == [] then [] else codes[text[0]] + Encode(codes, text[1..])
  }

  /** The decoding loop from a given buffer: emit and reset as soon as the buffer is a code. */
  function Greedy(rev: map<Code, char>, bits: Code, buffer: Code): string
    decreases |bits|
  {
    if bits == [] then []
    else
      var b := buffer + [bits[0]];
      if b in rev then [rev[b]] + Greedy(rev, bits[1..], []) else Greedy(rev, bits[1..], b)
  }

  /** What `compress` returns: the text encoded with the table built from it. */
  function Compress(text: string, pick: seq<Node> -> nat): Result<Code>
  {
    match BuildTree(text, pick)
    case Failure(e) => Failure(e)
    case Success(tree) =>
      TreeCovers(text, pick);
      Success(Encode(AsMap(tree), text))
  }

  /** What `decompress` returns. */
  function Decompress(compressed: Code, tree: Table): string
  {
    Greedy(Reverse(tree), compressed, [])
  }

  /**
   * Encoding works character by character: the encoding of a concatenation
   * is the two encodings one after the other, so the compressed length is
   * the sum of the characters' code lengths.
   */
  lemma {:induction false} EncodeAppend(codes: map<char, Code>, a: string, b: string)
    requires forall i :: 0 <= i < |a| ==> a[i] in codes
    requires forall i :: 0 <= i < |b| ==> b[i] in codes
    ensures forall i :: 0 <= i < |a + b| ==> (a + b)[i] in codes
    ensures Encode(codes, a + b) == Encode(codes, a) + Encode(codes, b)
    ensures |Encode(codes, a + b)| == |Encode(codes, a)| + |Encode(codes, b)|
  {
    assert forall i :: 0 <= i < |a + b| ==> (a + b)[i] in codes by {
      forall i | 0 <= i < |a + b|
        ensures (a + b)[i] in codes
      {
        if i >= |a| {
          assert (a + b)[i] == b[i - |a|];
        }
      }
    }
    if a == [] {
      assert a + b == b;
    } else {
      assert (a + b)[1..] == a[1..] + b;
      EncodeAppend(codes, a[1..], b);
      assert codes[a[0]] + (Encode(codes, a[1..]) + Encode(codes, b))
        == (codes[a[0]] + Encode(codes, a[1..])) + Encode(codes, b);
    }
  }

  /**
   * Trailing bits that never complete a code, together with what is already
   * in the buffer, are dropped: nothing more is emitted.
   */
  lemma {:induction false} GreedyDropsTail(rev: map<Code, char>, bits: Code, buffer: Code)
    requires forall k :: |buffer| < k <= |buffer| + |bits| ==> (buffer + bits)[..k] !in rev
    ensures Greedy(rev, bits, buffer) == []
    decreases |bits|
  {
    if bits != [] {
      var b := buffer + [bits[0]];
      assert b == (buffer + bits)[..|buffer| + 1];
      assert b + bits[1..] == buffer + bits;
      GreedyDropsTail(rev, bits[1..], b);
    }
  }

  // ----- Invariants of the merge loop -----

  predicate IsPrefix(x: Code, y: Code)
  {
    |x| <= |y| && y[..|x|] == x
  }

  /** No code of the entries is a prefix of another entry's code. */
  predicate PrefixFree(pairs: seq<Pair>)
  {
    forall a, b :: 0 <= a < |pairs| && 0 <= b < |pairs| && a != b ==> !IsPrefix(pairs[a].1, pairs[b].1)
  }

  predicate NonEmptyCodes(pairs: seq<Pair>)
  {
    forall a :: 0 <= a < |pairs| ==> pairs[a].1 != []
  }

  /** A node holds at least one entry, its codes are prefix-free, and once merged its codes are non-empty. */
  predicate WellFormed(n: Node)
  {
    |n.pairs| >= 1 && PrefixFree(n.pairs) && (|n.pairs| >= 2 ==> NonEmptyCodes(n.pairs))
  }

  function Firsts(pairs: seq<Pair>): (r: seq<char>)
    ensures |r| == |pairs|
  {
    seq(|pairs|, k requires 0 <= k < |pairs| => pairs[k].0)
  }

  /** All characters held by the heap's nodes. */
  function HeapKeys(heap: seq<Node>): multiset<char>
  {
    if heap == [] then multiset{} else HeapKeys(heap[..|heap| - 1]) + multiset(Firsts(heap[|heap| - 1].pairs))
  }

  lemma PrefixBit(bit: bool, x: Code, y: Code)
    ensures IsPrefix([bit] + x, [bit] + y) <==> IsPrefix(x, y)
  {
    if IsPrefix(x, y) {
      assert ([bit] + y)[..|x| + 1] == [bit] + y[..|x|];
    }
    if IsPrefix([bit] + x, [bit] + y) {
      assert y[..|x|] == ([bit] + y)[1..|x| + 1];
    }
  }

  lemma PrefixKeepsPrefixFree(bit: bool, pairs: seq<Pair>)
    requires PrefixFree(pairs)
    ensures PrefixFree(Prefix(bit, pairs)) && NonEmptyCodes(Prefix(bit, pairs))
  {
    forall a, b | 0 <= a < |pairs| && 0 <= b < |pairs| && a != b
      ensures !IsPrefix(Prefix(bit, pairs)[a].1, Prefix(bit, pairs)[b].1)
    {
      PrefixBit(bit, pairs[a].1, pairs[b].1);
    }
  }

  /** Merging two well-formed nodes gives a well-formed node: the codes from each side stay apart by their first bit. */
  lemma MergeWellFormed(low: Node, high: Node)
    requires WellFormed(low) && WellFormed(high)
    ensures WellFormed(Merge(low, high))
  {
    var l := Prefix(false, low.pairs);
    var h := Prefix(true, high.pairs);
    PrefixKeepsPrefixFree(false, low.pairs);
    PrefixKeepsPrefixFree(true, high.pairs);
    var p := l + h;
    forall a, b | 0 <= a < |p| && 0 <= b < |p| && a != b
      ensures !IsPrefix(p[a].1, p[b].1)
    {
      if a < |l| && b >= |l| {
        assert p[a].1[0] != p[b].1[0];
      } else if a >= |l| && b < |l| {
        assert p[a].1[0] != p[b].1[0];
      } else if a < |l| {
        assert p[a] == l[a] && p[b] == l[b];
      } else {
        assert p[a] == h[a - |l|] && p[b] == h[b - |l|];
      }
    }
  }

  lemma HeapKeysAppend(heap: seq<Node>, n: Node)
    ensures HeapKeys(heap + [n]) == HeapKeys(heap) + multiset(Firsts(n.pairs))
  {
    assert (heap + [n])[..|heap|] == heap;
  }

  lemma {:induction false} HeapKeysRemove(heap: seq<Node>, i: nat)
    requires i < |heap|
    ensures HeapKeys(heap) == HeapKeys(RemoveAt(heap, i)) + multiset(Firsts(heap[i].pairs))
    decreases |heap|
  {
    var init := heap[..|heap| - 1];
    if i == |heap| - 1 {
      assert RemoveAt(heap, i) == init;
    } else {
      var last := heap[|heap| - 1];
      var rest := RemoveAt(init, i);
      assert HeapKeys(heap) == HeapKeys(init) + multiset(Firsts(last.pairs));
      assert HeapKeys(init) == HeapKeys(rest) + multiset(Firsts(heap[i].pairs)) by {
        HeapKeysRemove(init, i);
      }
      assert HeapKeys(RemoveAt(heap, i)) == HeapKeys(rest) + multiset(Firsts(last.pairs)) by {
        assert RemoveAt(heap, i) == rest + [last] by {
          assert init[..i] == heap[..i];
          assert init[i + 1..] + [last] == heap[i + 1..];
        }
        HeapKeysAppend(rest, last);
      }
      MultisetSwap(HeapKeys(rest), multiset(Firsts(heap[i].pairs)), multiset(Firsts(last.pairs)));
    }
  }

  lemma MultisetSwap<T>(a: multiset<T>, b: multiset<T>, c: multiset<T>)
    ensures a + b + c == a + c + b
  {
  }

  lemma MergeKeys(low: Node, high: Node)
    ensures multiset(Firsts(Merge(low, high).pairs)) == multiset(Firsts(low.pairs)) + multiset(Firsts(high.pairs))
  {
    var l := Prefix(false, low.pairs);
    var h := Prefix(true, high.pairs);
    assert Firsts(l + h) == Firsts(low.pairs) + Firsts(high.pairs);
  }

  /** One round of the merge loop keeps every node well formed. */
  lemma StepWellFormed(heap: seq<Node>, pick: seq<Node> -> nat)
    requires |heap| >= 2
    requires forall k :: 0 <= k < |heap| ==> WellFormed(heap[k])
    ensures forall k :: 0 <= k < |heap| - 1 ==> WellFormed(Step(heap, pick)[k])
  {
    var i := Pick(pick, heap);
    var rest := RemoveAt(heap, i);
    var j := Pick(pick, rest);
    var others := RemoveAt(rest, j);
    var next := Step(heap, pick);
    assert next == others + [Merge(heap[i], rest[j])];
    forall k | 0 <= k < |next|
      ensures WellFormed(next[k])
    {
      if k < |others| {
        var k' := if k < j then k else k + 1;
        assert next[k] == rest[k'];
        assert rest[k'] == if k' < i then heap[k'] else heap[k' + 1];
      } else {
        MergeWellFormed(heap[i], rest[j]);
      }
    }
  }

  /** One round of the merge loop keeps the characters the heap holds. */
  lemma StepKeys(heap: seq<Node>, pick: seq<Node> -> nat)
    requires |heap| >= 2
    ensures HeapKeys(Step(heap, pick)) == HeapKeys(heap)
  {
    var i := Pick(pick, heap);
    var rest := RemoveAt(heap, i);
    var j := Pick(pick, rest);
    var others := RemoveAt(rest, j);
    HeapKeysRemove(heap, i);
    HeapKeysRemove(rest, j);
    HeapKeysAppend(others, Merge(heap[i], rest[j]));
    MergeKeys(heap[i], rest[j]);
  }

  /** The merge loop ends with one well-formed node holding every character it started with. */
  lemma {:induction false} MergedInvariant(heap: seq<Node>, pick: seq<Node> -> nat)
    requires |heap| >= 1
    requires forall k :: 0 <= k < |heap| ==> WellFormed(heap[k])
    ensures |Merged(heap, pick)| == 1
    ensures WellFormed(Merged(heap, pick)[0])
    ensures HeapKeys(Merged(heap, pick)) == HeapKeys(heap)
    decreases |heap|
  {
    if |heap| >= 2 {
      StepWellFormed(heap, pick);
      StepKeys(heap, pick);
      MergedInvariant(Step(heap, pick), pick);
    }
  }

  lemma {:induction false} LeafKeys(heap: seq<Node>, keys: seq<char>)
    requires |heap| == |keys|
    requires forall k :: 0 <= k < |heap| ==> heap[k].pairs == [(keys[k], [])]
    ensures HeapKeys(heap) == multiset(keys)
  {
    if heap != [] {
      var n := |heap| - 1;
      LeafKeys(heap[..n], keys[..n]);
      assert Firsts(heap[n].pairs) == [keys[n]];
      assert keys == keys[..n] + [keys[n]];
    }
  }

  lemma {:induction false} UniqueCount(s: seq<char>, c: char)
    requires Unique(s)
    ensures multiset(s)[c] <= 1
  {
    if s != [] {
      var n := |s| - 1;
      UniqueCount(s[..n], c);
      assert s == s[..n] + [s[n]];
      assert s[n] !in s[..n];
    }
  }

  lemma SameKeysUnique(a: seq<char>, b: seq<char>)
    requires multiset(a) == multiset(b) && Unique(b)
    ensures Unique(a) && |a| == |b|
    ensures forall c :: c in a <==> c in b
  {
    assert |a| == |multiset(a)| == |multiset(b)| == |b|;
    forall i, j | 0 <= i < j < |a|
      ensures a[i] != a[j]
    {
      if a[i] == a[j] {
        assert a == a[..j] + a[j..];
        assert a[i] in a[..j] && a[j] in a[j..];
        assert multiset(a)[a[i]] == multiset(a[..j])[a[i]] + multiset(a[j..])[a[i]];
        UniqueCount(b, a[i]);
        assert false;
      }
    }
    forall c
      ensures c in a <==> c in b
    {
      assert c in a <==> c in multiset(a);
      assert c in b <==> c in multiset(b);
    }
  }

  /** The table `build_tree` returns for a non-empty text, and the shape of its codes. */
  lemma {:induction false} TreeShape(text: string, pick: seq<Node> -> nat)
    requires text != []
    ensures BuildTree(text, pick).Success?
    ensures var t := BuildTree(text, pick).value;
      Unique(Firsts(t)) && |t| == |Chars(text)| && (forall c :: c in Firsts(t) <==> c in text)
      && PrefixFree(t) && (|t| >= 2 ==> NonEmptyCodes(t))
  {
    var leaves := Leaves(text);
    var keys := Chars(text);
    assert text[0] in keys;
    LeafKeys(leaves, keys);
    MergedInvariant(leaves, pick);
    var root := Merged(leaves, pick)[0];
    assert [root] == Merged(leaves, pick);
    HeapKeysAppend([], root);
    assert [] + [root] == [root];
    SameKeysUnique(Firsts(root.pairs), keys);
  }

  /** `build_tree` on empty text fails: `heappop` is called on an empty heap. */
  lemma EmptyText(pick: seq<Node> -> nat)
    ensures BuildTree([], pick) == Failure("index out of range")
    ensures Compress([], pick) == Failure("index out of range")
  {
    assert Leaves([]) == [];
  }

  /**
   * Text with one distinct character: the merge loop never runs and that
   * character gets the empty code, so compression writes nothing and
   * decompression gives the empty string.
   */
  lemma SingleCharacter(text: string, pick: seq<Node> -> nat)
    requires |Chars(text)| == 1
    ensures BuildTree(text, pick) == Success([(text[0], [])])
    ensures Compress(text, pick) == Success([])
    ensures Decompress([], [(text[0], [])]) == []
  {
    var x := Chars(text)[0];
    assert text[0] in Chars(text);
    assert forall i :: 0 <= i < |text| ==> text[i] == x by {
      forall i | 0 <= i < |text|
        ensures text[i] == x
      {
        assert text[i] in Chars(text);
      }
    }
    var t := [(x, [])];
    assert Leaves(text) == [Node(2 * Count(text, x), t)];
    assert BuildTree(text, pick) == Success(t);
    assert AsMap(t) == map[x := []];
    EncodeEmptyCodes(AsMap(t), text);
  }

  lemma {:induction false} EncodeEmptyCodes(codes: map<char, Code>, text: string)
    requires forall i :: 0 <= i < |text| ==> text[i] in codes && codes[text[i]] == []
    ensures Encode(codes, text) == []
  {
    if text != [] {
      EncodeEmptyCodes(codes, text[1..]);
    }
  }

  /** Every character of the text has a code in the table built from it. */
  lemma TreeCovers(text: string, pick: seq<Node> -> nat)
    requires BuildTree(text, pick).Success?
    ensures forall i :: 0 <= i < |text| ==> text[i] in AsMap(BuildTree(text, pick).value)
  {
    var t := BuildTree(text, pick).value;
    if text != [] {
      TreeShape(text, pick);
      forall i | 0 <= i < |text|
        ensures text[i] in AsMap(t)
      {
        assert text[i] in Firsts(t);
        var k :| 0 <= k < |t| && Firsts(t)[k] == text[i];
        AsMapAt(t, k);
      }
    }
  }

  // ----- Lookups in a table -----

  /** With distinct keys, the dictionary maps each entry's character to its code. */
  lemma {:induction false} AsMapAt(t: Table, k: nat)
    requires k < |t| && Unique(Firsts(t))
    ensures t[k].0 in AsMap(t) && AsMap(t)[t[k].0] == t[k].1
  {
    var n := |t| - 1;
    if k < n {
      assert Firsts(t[..n]) == Firsts(t)[..n];
      AsMapAt(t[..n], k);
      assert Firsts(t)[k] != Firsts(t)[n];
    }
  }

  /** The codes of `reverse_tree` are exactly the table's codes. */
  lemma {:induction false} ReverseKeys(t: Table, x: Code)
    ensures x in Reverse(t) <==> exists m :: 0 <= m < |t| && t[m].1 == x
  {
    if t != [] {
      var n := |t| - 1;
      ReverseKeys(t[..n], x);
      if x in Reverse(t[..n]) {
        var m :| 0 <= m < n && t[..n][m].1 == x;
        assert t[m].1 == x;
      }
      if exists m :: 0 <= m < |t| && t[m].1 == x {
        var m :| 0 <= m < |t| && t[m].1 == x;
        if m < n {
          assert t[..n][m].1 == x;
        }
      }
    }
  }

  /** With prefix-free codes, `reverse_tree` maps each entry's code back to its character. */
  lemma {:induction false} ReverseAt(t: Table, k: nat)
    requires k < |t| && PrefixFree(t)
    ensures t[k].1 in Reverse(t) && Reverse(t)[t[k].1] == t[k].0
  {
    var n := |t| - 1;
    if k < n {
      assert PrefixFree(t[..n]) by {
        forall a, b | 0 <= a < n && 0 <= b < n && a != b
          ensures !IsPrefix(t[..n][a].1, t[..n][b].1)
        {
          assert t[..n][a] == t[a] && t[..n][b] == t[b];
        }
      }
      ReverseAt(t[..n], k);
      assert !IsPrefix(t[n].1, t[k].1);
    }
  }

  /** Reading a whole code, starting with a buffer that is a proper prefix of it, emits its character. */
  lemma {:induction false} ReadCode(rev: map<Code, char>, full: Code, n: nat, rest: Code)
    requires n < |full| && full in rev
    requires forall k :: n < k < |full| ==> full[..k] !in rev
    ensures Greedy(rev, full[n..] + rest, full[..n]) == [rev[full]] + Greedy(rev, rest, [])
    decreases |full| - n
  {
    var bits := full[n..] + rest;
    assert bits[0] == full[n];
    assert full[..n] + [full[n]] == full[..n + 1];
    if n + 1 == |full| {
      assert full[..n + 1] == full;
      assert bits[1..] == rest;
    } else {
      assert bits[1..] == full[n + 1..] + rest;
      ReadCode(rev, full, n + 1, rest);
    }
  }

  /** Greedy decoding inverts encoding for a table with distinct keys and non-empty prefix-free codes. */
  lemma {:induction false} DecodeEncoded(t: Table, text: string)
    requires Unique(Firsts(t)) && PrefixFree(t) && NonEmptyCodes(t)
    requires forall i :: 0 <= i < |text| ==> text[i] in Firsts(t)
    ensures forall i :: 0 <= i < |text| ==> text[i] in AsMap(t)
    ensures Greedy(Reverse(t), Encode(AsMap(t), text), []) == text
  {
    forall i | 0 <= i < |text|
      ensures text[i] in AsMap(t)
    {
      var k :| 0 <= k < |t| && Firsts(t)[k] == text[i];
      AsMapAt(t, k);
    }
    if text != [] {
      var k :| 0 <= k < |t| && Firsts(t)[k] == text[0];
      AsMapAt(t, k);
      ReverseAt(t, k);
      var code := t[k].1;
      var rev := Reverse(t);
      forall j | 0 < j < |code|
        ensures code[..j] !in rev
      {
        forall m | 0 <= m < |t|
          ensures t[m].1 != code[..j]
        {
          if m != k {
            assert !IsPrefix(t[m].1, t[k].1);
          }
        }
        ReverseKeys(t, code[..j]);
      }
      DecodeEncoded(t, text[1..]);
      assert code[0..] == code && code[..0] == [];
      ReadCode(rev, code, 0, Encode(AsMap(t), text[1..]));
    }
  }

  /**
   * For text with at least two distinct characters, decompressing the
   * compressed text with the table built from it gives the text back, and
   * the table gives each distinct character one non-empty code, none a
   * prefix of another.
   */
  lemma RoundTrip(text: string, pick: seq<Node> -> nat)
    requires |Chars(text)| >= 2
    ensures BuildTree(text, pick).Success? && Compress(text, pick).Success?
    ensures var t := BuildTree(text, pick).value;
      Unique(Firsts(t)) && (forall c :: c in Firsts(t) <==> c in text)
      && PrefixFree(t) && NonEmptyCodes(t)
      && Decompress(Compress(text, pick).value, t) == text
  {
    assert text != [];
    TreeShape(text, pick);
    var t := BuildTree(text, pick).value;
    DecodeEncoded(t, text);
  }

  // ----- The compressor's loops -----

  /** `Counter(text)` followed by the loop that counts every character once more. */
  method Frequencies(text: string) returns (keys: seq<char>, freq: map<char, nat>)
    ensures keys == Chars(text)
    ensures forall c :: c in freq <==> c in text
    ensures forall c :: c in freq ==> freq[c] == 2 * Count(text, c)
  {
    keys := Chars(text);
    freq := map c | c in keys :: Count(text, c);
    var i := 0;
    while i < |text|
      invariant 0 <= i <= |text|
      invariant forall c :: c in freq <==> c in text
      invariant forall c :: c in freq ==> freq[c] == Count(text, c) + Count(text[..i], c)
    {
      var c := text[i];
      assert text[..i + 1][..i] == text[..i];
      freq := freq[c := freq[c] + 1];
      i := i + 1;
    }
    assert text[..i] == text;
  }

  /** The loop that puts `bit` in front of every code of a popped node, entry by entry. */
  method PrependBit(bit: bool, pairs: seq<Pair>) returns (r: seq<Pair>)
    ensures r == Prefix(bit, pairs)
  {
    r := pairs;
    var k := 0;
    while k < |r|
      invariant 0 <= k <= |r| == |pairs|
      invariant forall m :: 0 <= m < k ==> r[m] == (pairs[m].0, [bit] + pairs[m].1)
      invariant forall m :: k <= m < |r| ==> r[m] == pairs[m]
    {
      r := r[k := (r[k].0, [bit] + r[k].1)];
      k := k + 1;
    }
  }

  /** One pass of the `while len(heap) > 1` loop. */
  method MergeRound(heap: seq<Node>, pick: seq<Node> -> nat) returns (next: seq<Node>)
    requires |heap| >= 2
    ensures next == Step(heap, pick)
  {
    next := heap;
    var i := Pick(pick, next);
    var low := next[i];
    next := RemoveAt(next, i);
    var j := Pick(pick, next);
    var high := next[j];
    next := RemoveAt(next, j);
    var lowPairs := PrependBit(false, low.pairs);
    var highPairs := PrependBit(true, high.pairs);
    next := next + [Node(low.weight + high.weight, lowPairs + highPairs)];
  }

  /** `HuffmanCompressor.build_tree`. */
  method BuildTreeLoop(text: string, pick: seq<Node> -> nat) returns (r: Result<Table>)
    ensures r == BuildTree(text, pick)
  {
    var keys, freq := Frequencies(text);
    var heap := seq(|keys|, k requires 0 <= k < |keys| => Node(freq[keys[k]], [(keys[k], [])]));
    assert heap == Leaves(text);
    while |heap| > 1
      invariant Merged(heap, pick) == Merged(Leaves(text), pick)
      decreases |heap|
    {
      heap := MergeRound(heap, pick);
    }
    if heap == [] {
      return Failure("index out of range");
    }
    return Success(heap[0].pairs);
  }

  /** `HuffmanCompressor.compress`. */
  method CompressText(text: string, pick: seq<Node> -> nat) returns (r: Result<Code>)
    ensures r == Compress(text, pick)
  {
    var tree := BuildTreeLoop(text, pick);
    if tree.Failure? {
      return Failure(tree.error);
    }
    TreeCovers(text, pick);
    return Success(Encode(AsMap(tree.value), text));
  }

  /** `HuffmanCompressor.decompress`: the buffer grows bit by bit and is emptied whenever it equals a code. */
  method DecompressBits(compressed: Code, tree: Table) returns (text: string)
    ensures text == Decompress(compressed, tree)
  {
    var reverseTree := Reverse(tree);
    var decoded: string := [];
    var buffer: Code := [];
    var i := 0;
    while i < |compressed|
      invariant 0 <= i <= |compressed|
      invariant decoded + Greedy(reverseTree, compressed[i..], buffer) == Greedy(reverseTree, compressed, [])
    {
      assert compressed[i..][0] == compressed[i] && compressed[i..][1..] == compressed[i + 1..];
      buffer := buffer + [compressed[i]];
      if buffer in reverseTree {
        decoded := decoded + [reverseTree[buffer]];
        buffer := [];
      }
      i := i + 1;
    }
    text := decoded;
  }
}
