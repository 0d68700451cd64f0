/** Model of `UDLL<T>` (Unidirect/Helpers/UDLL.cs): a doubly-linked list that refuses
    duplicate values, finds a value's node through a value-to-node dictionary, and recycles
    removed nodes through a `UStack` pool.

    Nodes (`UDLLNode<T>` objects) live in an arena: `nodes[n]` holds the fields of node
    reference `n`, and `Nil` stands for `null`.  A node that C# creates with
    `Activator.CreateInstance` is a new arena slot.  The ghost `Chain` lists the nodes met
    when walking `Next` from `First`, and `Contents` their values. */
module LinkedLists {
  import opened Stacks

  /** `null` as a node reference. */
  const Nil: int := -1

  /** The fields of one `UDLLNode<T>`. */
  datatype Node<T> = Node(value: T, prev: int, next: int)

  /** No element occurs twice, stated element by element from the back so that it unfolds
      only as far as a proof asks. */
  ghost predicate Distinct<X>(s: seq<X>)
    decreases |s|
  {
    |s| == 0 || (s[|s| - 1] !in s[..|s| - 1] && Distinct(s[..|s| - 1]))
  }

  /** No element occurs twice, stated over pairs of positions. */
  ghost predicate NoDup<X>(s: seq<X>)
  {
    forall i, j :: 0 <= i < j < |s| ==> s[i] != s[j]
  }

  lemma {:induction false} DistinctNoDup<X>(s: seq<X>)
    ensures Distinct(s) <==> NoDup(s)
    decreases |s|
  {
    if |s| > 0 {
      var t, x := s[..|s| - 1], s[|s| - 1];
      DistinctNoDup(t);
      if NoDup(s) {
        forall i, j | 0 <= i < j < |t|
          ensures t[i] != t[j]
        {
          assert t[i] == s[i] && t[j] == s[j];
        }
        forall i | 0 <= i < |t|
          ensures t[i] != x
        {
          assert t[i] == s[i];
        }
      }
      if Distinct(s) {
        forall i, j | 0 <= i < j < |s|
          ensures s[i] != s[j]
        {
          assert s[i] == t[i];
          if j < |s| - 1 {
            assert s[j] == t[j];
          }
        }
      }
    }
  }

  /** The neighbours of position `i` of a chain, `Nil` past either end. */
  function PrevOf(chain: seq<int>, i: int): int
    requires 0 <= i < |chain|
  {
    if i > 0 then chain[i - 1] else Nil
  }

  function NextOf(chain: seq<int>, i: int): int
    requires 0 <= i < |chain|
  {
    if i + 1 < |chain| then chain[i + 1] else Nil
  }

  /** A node as `_Remove` and `Clear` leave it: no value, no links. */
  ghost predicate Scrubbed<T>(nodes: seq<Node<T>>, n: int, blank: T)
  {
    0 <= n < |nodes| && nodes[n] == Node(blank, Nil, Nil)
  }

  /** Position `i` of the chain is a node holding `contents[i]`, linked to its neighbours. */
  ghost predicate LinkedAt<T>(nodes: seq<Node<T>>, chain: seq<int>, contents: seq<T>, i: int)
  {
    0 <= i < |chain| && i < |contents| && 0 <= chain[i] < |nodes|
    && nodes[chain[i]] == Node(contents[i], PrevOf(chain, i), NextOf(chain, i))
  }

  /** Walking `Next` from `first` meets the nodes of `chain`, holding `contents`, each linked
      back to its predecessor; `last` is the final node.  On an empty chain `first` is `null`
      or a scrubbed node that `Clear` left behind, and `last` may be anything. */
  ghost predicate Linked<T>(nodes: seq<Node<T>>, chain: seq<int>, contents: seq<T>,
                            first: int, last: int, blank: T)
  {
    |chain| == |contents| && Distinct(chain)
    && (forall i :: 0 <= i < |chain| ==> 0 <= chain[i] < |nodes|)
    && (forall i :: 0 <= i < |chain| ==> LinkedAt(nodes, chain, contents, i))
    && (|chain| > 0 ==> first == chain[0] && last == chain[|chain| - 1])
    && (|chain| == 0 && first != Nil ==> Scrubbed(nodes, first, blank))
  }

  /** `_values` maps each value of the chain to its node and nothing else; `_count` is the
      length of the chain. */
  ghost predicate Indexed<T(!new)>(index: map<T, int>, count: int, chain: seq<int>, contents: seq<T>)
  {
    |chain| == |contents| && count == |chain| && |index| == count
    && (forall v :: v in index <==> v in contents)
    && (forall i :: 0 <= i < |chain| ==> contents[i] in index && index[contents[i]] == chain[i])
  }

  /** Every pooled entry is `null` or a scrubbed node outside the chain; when `tidy`, no node
      is pooled twice. */
  ghost predicate PoolSound<T>(items: seq<int>, nodes: seq<Node<T>>, chain: seq<int>, blank: T, tidy: bool)
  {
    (forall k :: 0 <= k < |items| ==>
       items[k] == Nil || (Scrubbed(nodes, items[k], blank) && items[k] !in chain))
    && (tidy ==> forall k1, k2 :: 0 <= k1 < k2 < |items| && items[k1] != Nil ==> items[k1] != items[k2])
  }

  /** The position of `x` in `s`, counted from the front. */
  function IndexOf<X(==)>(s: seq<X>, x: X): (r: int)
    requires x in s
    ensures 0 <= r < |s| && s[r] == x && x !in s[..r]
  {
    if s[0] == x then 0
    else
      var r' := IndexOf(s[1..], x);
      assert s[..r' + 1] == [s[0]] + s[1..][..r'];
      r' + 1
  }

  /** `s` without the element `x`: what removing `x` from a list does to its contents. */
  function Erase<X(==)>(s: seq<X>, x: X): seq<X>
    requires x in s
  {
    var p := IndexOf(s, x);
    s[..p] + s[p + 1..]
  }

  /** Indexing into a sequence with position `p` taken out. */
  lemma DropAt<X>(s: seq<X>, p: int)
    requires 0 <= p < |s|
    ensures |s[..p] + s[p + 1..]| == |s| - 1
    ensures forall i {:trigger (s[..p] + s[p + 1..])[i]} :: 0 <= i < |s| - 1 ==>
              (s[..p] + s[p + 1..])[i] == if i < p then s[i] else s[i + 1]
  {
  }

  /** A prefix one longer is the prefix and the next element. */
  lemma PrefixStep<X>(s: seq<X>, k: int)
    requires 0 <= k < |s|
    ensures s[..k + 1] == s[..k] + [s[k]]
  {
  }

  /** One more element of a prefix, added after `a`. */
  lemma AppendPrefixStep<X>(a: seq<X>, s: seq<X>, k: int)
    requires 0 <= k < |s|
    ensures a + s[..k + 1] == (a + s[..k]) + [s[k]]
  {
    assert s[..k + 1] == s[..k] + [s[k]];
  }

  /** Two positions of a sequence without repetitions hold different elements. */
  lemma DistinctAt<X>(s: seq<X>, i: int, j: int)
    requires Distinct(s) && 0 <= i < |s| && 0 <= j < |s| && i != j
    ensures s[i] != s[j]
  {
    DistinctNoDup(s);
  }

  /** An element of a sequence without repetitions does not occur before its position. */
  lemma DistinctPrefix<X>(s: seq<X>, k: int)
    requires Distinct(s) && 0 <= k < |s|
    ensures s[k] !in s[..k]
  {
    DistinctNoDup(s);
    assert forall i :: 0 <= i < k ==> s[..k][i] == s[i];
  }

  /** Dropping a position of a sequence without repetitions drops its element. */
  lemma DropDistinct<X>(s: seq<X>, p: int)
    requires Distinct(s) && 0 <= p < |s|
    ensures s[p] !in s[..p] + s[p + 1..]
  {
    DistinctNoDup(s);
    DropAt(s, p);
  }

  /** In a sequence without repetitions, `IndexOf` finds the one position holding a value. */
  lemma IndexOfDistinct<X>(s: seq<X>, i: int)
    requires Distinct(s) && 0 <= i < |s|
    ensures IndexOf(s, s[i]) == i
  {
    DistinctNoDup(s);
    var r := IndexOf(s, s[i]);
    assert s[r] == s[i];
  }

  /** Erasing a value from a list without repetitions removes exactly that value. */
  lemma {:induction false} EraseMembers<X>(s: seq<X>, x: X)
    requires Distinct(s) && x in s
    ensures |Erase(s, x)| == |s| - 1 && Distinct(Erase(s, x))
    ensures forall v :: v in Erase(s, x) <==> v in s && v != x
  {
    DistinctNoDup(s);
    var p := IndexOf(s, x);
    var e := Erase(s, x);
    DropAt(s, p);
    forall v
      ensures v in e <==> v in s && v != x
    {
      if v in e {
        var i :| 0 <= i < |e| && e[i] == v;
        var j := if i < p then i else i + 1;
        assert s[j] == v && j != p;
      }
      if v in s && v != x {
        var j :| 0 <= j < |s| && s[j] == v;
        assert j != p;
        assert e[if j < p then j else j - 1] == v;
      }
    }
    forall i, j | 0 <= i < j < |e|
      ensures e[i] != e[j]
    {
      var i', j' := if i < p then i else i + 1, if j < p then j else j + 1;
      assert e[i] == s[i'] && e[j] == s[j'];
    }
    DistinctNoDup(e);
  }

  /** Removing a value just appended gives the list back: `Remove` undoes `AddLast`. */
  lemma {:induction false} EraseAppended<X>(s: seq<X>, x: X)
    requires x !in s
    ensures Erase(s + [x], x) == s
  {
    var p := IndexOf(s + [x], x);
    assert forall i :: 0 <= i < |s| ==> (s + [x])[i] == s[i] != x;
    assert p == |s|;
    assert (s + [x])[..p] == s;
  }

  /** Removing a value just prepended gives the list back: `Remove` undoes `AddFirst`. */
  lemma {:induction false} ErasePrepended<X>(s: seq<X>, x: X)
    ensures Erase([x] + s, x) == s
  {
    assert IndexOf([x] + s, x) == 0;
    assert ([x] + s)[1..] == s;
  }

  /** Values are never repeated in an indexed chain. */
  lemma IndexedDistinct<T(!new)>(index: map<T, int>, count: int, chain: seq<int>, contents: seq<T>)
    requires Indexed(index, count, chain, contents) && Distinct(chain)
    ensures Distinct(contents)
  {
    DistinctNoDup(chain);
    forall i, j | 0 <= i < j < |contents|
      ensures contents[i] != contents[j]
    {
      assert index[contents[i]] == chain[i] && index[contents[j]] == chain[j];
    }
    DistinctNoDup(contents);
  }

  /** Recording a new value and its node at the end of an indexed chain. */
  lemma {:induction false} IndexAppend<T(!new)>(index: map<T, int>, count: int, chain: seq<int>,
                                                contents: seq<T>, v: T, n: int)
    requires Indexed(index, count, chain, contents) && v !in index
    ensures Indexed(index[v := n], count + 1, chain + [n], contents + [v])
  {
    var contents' := contents + [v];
    forall u
      ensures u in index[v := n] <==> u in contents'
    {
      if u in contents {
        var i :| 0 <= i < |contents| && contents[i] == u;
        assert contents'[i] == u;
      }
      if u in contents' && u != v {
        var i :| 0 <= i < |contents'| && contents'[i] == u;
        assert contents[i] == u;
      }
    }
    assert contents'[|contents|] == v;
  }

  /** Recording a new value and its node at the front of an indexed chain. */
  lemma {:induction false} IndexPrepend<T(!new)>(index: map<T, int>, count: int, chain: seq<int>,
                                                 contents: seq<T>, v: T, n: int)
    requires Indexed(index, count, chain, contents) && v !in index
    ensures Indexed(index[v := n], count + 1, [n] + chain, [v] + contents)
  {
    var chain', contents' := [n] + chain, [v] + contents;
    forall u
      ensures u in index[v := n] <==> u in contents'
    {
      if u in contents {
        var i :| 0 <= i < |contents| && contents[i] == u;
        assert contents'[i + 1] == u;
      }
      if u in contents' && u != v {
        var i :| 0 <= i < |contents'| && contents'[i] == u;
        assert contents[i - 1] == u;
      }
    }
    forall i | 0 <= i < |chain'|
      ensures contents'[i] in index[v := n] && index[v := n][contents'[i]] == chain'[i]
    {
      if i > 0 {
        assert contents'[i] == contents[i - 1] && chain'[i] == chain[i - 1];
        assert contents[i - 1] in index;
      }
    }
  }

  /** Taking position `p` out of an indexed chain and its value out of the dictionary keeps
      them in step. */
  lemma {:induction false} Unindex<T(!new)>(index: map<T, int>, count: int, chain: seq<int>, contents: seq<T>, p: int)
    requires Indexed(index, count, chain, contents) && Distinct(chain) && 0 <= p < |chain|
    ensures Indexed(index - {contents[p]}, count - 1, chain[..p] + chain[p + 1..], contents[..p] + contents[p + 1..])
  {
    IndexedDistinct(index, count, chain, contents);
    IndexOfDistinct(contents, p);
    EraseMembers(contents, contents[p]);
    var chain', contents' := chain[..p] + chain[p + 1..], contents[..p] + contents[p + 1..];
    var index' := index - {contents[p]};
    DropAt(chain, p);
    DropAt(contents, p);
    assert index'.Keys == index.Keys - {contents[p]};
    forall i | 0 <= i < |chain'|
      ensures contents'[i] in index' && index'[contents'[i]] == chain'[i]
    {
      var j := if i < p then i else i + 1;
      assert contents'[i] == contents[j] && chain'[i] == chain[j];
      DistinctAt(contents, j, p);
    }
  }

  /** In an indexed chain the node of the value at position `p` is the chain's node at `p`,
      and erasing either takes out position `p`. */
  lemma EraseAt<T(!new)>(index: map<T, int>, count: int, chain: seq<int>, contents: seq<T>, p: int)
    requires Indexed(index, count, chain, contents) && Distinct(chain) && 0 <= p < |chain|
    ensures contents[p] in index && index[contents[p]] == chain[p]
    ensures Erase(chain, chain[p]) == chain[..p] + chain[p + 1..]
    ensures Erase(contents, contents[p]) == contents[..p] + contents[p + 1..]
  {
    IndexOfDistinct(chain, p);
    IndexedDistinct(index, count, chain, contents);
    IndexOfDistinct(contents, p);
  }

  /** Creating a node appends a scrubbed slot to the arena and disturbs nothing. */
  lemma {:induction false} GrowArena<T>(nodes: seq<Node<T>>, chain: seq<int>, contents: seq<T>, first: int,
                                        last: int, blank: T, items: seq<int>, tidy: bool)
    requires Linked(nodes, chain, contents, first, last, blank)
    requires PoolSound(items, nodes, chain, blank, tidy)
    ensures Linked(nodes + [Node(blank, Nil, Nil)], chain, contents, first, last, blank)
    ensures PoolSound(items, nodes + [Node(blank, Nil, Nil)], chain, blank, tidy)
    ensures |nodes| !in chain && |nodes| !in items
  {
    var nodes' := nodes + [Node(blank, Nil, Nil)];
    forall i | 0 <= i < |chain|
      ensures LinkedAt(nodes', chain, contents, i) && chain[i] != |nodes|
    {
      assert LinkedAt(nodes, chain, contents, i);
    }
    forall k | 0 <= k < |items| && items[k] != Nil
      ensures Scrubbed(nodes', items[k], blank) && items[k] != |nodes|
    {
      assert Scrubbed(nodes, items[k], blank);
    }
  }

  /** Popping the top of a sound pool leaves a sound pool without that node. */
  lemma {:induction false} PopSound<T>(items: seq<int>, nodes: seq<Node<T>>, chain: seq<int>, blank: T)
    requires PoolSound(items, nodes, chain, blank, true) && |items| > 0 && items[|items| - 1] != Nil
    ensures PoolSound(items[..|items| - 1], nodes, chain, blank, true)
    ensures items[|items| - 1] !in items[..|items| - 1]
    ensures Scrubbed(nodes, items[|items| - 1], blank) && items[|items| - 1] !in chain
  {
    var top := items[|items| - 1];
    var rest := items[..|items| - 1];
    forall k | 0 <= k < |rest|
      ensures rest[k] != top
    {
      assert items[k] != items[|items| - 1];
    }
  }

  /** Pushing a scrubbed node from outside the chain keeps the pool sound. */
  lemma {:induction false} PushSound<T>(items: seq<int>, nodes: seq<Node<T>>, chain: seq<int>, blank: T,
                                        tidy: bool, n: int)
    requires PoolSound(items, nodes, chain, blank, tidy)
    requires Scrubbed(nodes, n, blank) && n !in chain && (tidy ==> n !in items)
    ensures PoolSound(items + [n], nodes, chain, blank, tidy)
  {
    var items' := items + [n];
    forall k | 0 <= k < |items'|
      ensures items'[k] == Nil || (Scrubbed(nodes, items'[k], blank) && items'[k] !in chain)
    {
      if k < |items| {
        assert items'[k] == items[k];
      }
    }
    if tidy {
      forall k1, k2 | 0 <= k1 < k2 < |items'| && items'[k1] != Nil
        ensures items'[k1] != items'[k2]
      {
        assert items'[k1] == items[k1];
        if k2 < |items| {
          assert items'[k2] == items[k2];
        }
      }
    }
  }

  /** Writing a node that is neither in the chain nor pooled disturbs neither. */
  lemma {:induction false} WriteLoose<T>(nodes: seq<Node<T>>, chain: seq<int>, contents: seq<T>, first: int,
                                         last: int, blank: T, items: seq<int>, tidy: bool, n: int, x: Node<T>)
    requires Linked(nodes, chain, contents, first, last, blank)
    requires PoolSound(items, nodes, chain, blank, tidy)
    requires 0 <= n < |nodes| && n !in chain && n !in items && (|chain| > 0 || first != n)
    ensures Linked(nodes[n := x], chain, contents, first, last, blank)
    ensures PoolSound(items, nodes[n := x], chain, blank, tidy)
  {
    var nodes' := nodes[n := x];
    forall i | 0 <= i < |chain|
      ensures LinkedAt(nodes', chain, contents, i)
    {
      assert LinkedAt(nodes, chain, contents, i) && chain[i] != n;
    }
    forall k | 0 <= k < |items| && items[k] != Nil
      ensures Scrubbed(nodes', items[k], blank)
    {
      assert Scrubbed(nodes, items[k], blank) && items[k] != n;
    }
  }

  /** Scrubbing a node that left the chain keeps the chain and the pool as they are. */
  lemma {:induction false} ScrubLoose<T>(nodes: seq<Node<T>>, chain: seq<int>, contents: seq<T>, first: int,
                                         last: int, blank: T, items: seq<int>, tidy: bool, n: int)
    requires Linked(nodes, chain, contents, first, last, blank)
    requires PoolSound(items, nodes, chain, blank, tidy)
    requires 0 <= n < |nodes| && n !in chain
    ensures Linked(nodes[n := Node(blank, Nil, Nil)], chain, contents, first, last, blank)
    ensures PoolSound(items, nodes[n := Node(blank, Nil, Nil)], chain, blank, tidy)
  {
    var nodes' := nodes[n := Node(blank, Nil, Nil)];
    forall i | 0 <= i < |chain|
      ensures LinkedAt(nodes', chain, contents, i)
    {
      assert LinkedAt(nodes, chain, contents, i) && chain[i] != n;
    }
    forall k | 0 <= k < |items| && items[k] != Nil
      ensures Scrubbed(nodes', items[k], blank)
    {
      assert Scrubbed(nodes, items[k], blank);
    }
  }

  /** Relinking chain node `a` and the new node `b`, which joins the chain, leaves every
      pooled node scrubbed and outside the chain. */
  lemma {:induction false} RelinkPool<T>(items: seq<int>, nodes: seq<Node<T>>, chain: seq<int>, blank: T,
                                         a: int, b: int, x: Node<T>, y: Node<T>, chain': seq<int>)
    requires PoolSound(items, nodes, chain, blank, true)
    requires a in chain && b !in items && 0 <= a < |nodes| && 0 <= b < |nodes|
    requires forall c :: c in chain' ==> c in chain || c == b
    ensures PoolSound(items, nodes[a := x][b := y], chain', blank, true)
  {
    var nodes' := nodes[a := x][b := y];
    forall k | 0 <= k < |items| && items[k] != Nil
      ensures Scrubbed(nodes', items[k], blank) && items[k] !in chain'
    {
      assert Scrubbed(nodes, items[k], blank) && items[k] !in chain;
      assert items[k] != a && items[k] != b;
    }
  }

  /** Taking position `p` out of a linked, indexed chain: what `Erase` leaves of the chain and
      of the values, and the lookup without the value at `p` indexes the rest. */
  lemma ErasedAt<T(!new)>(nodes: seq<Node<T>>, index: map<T, int>, count: int, chain: seq<int>,
                          contents: seq<T>, first: int, last: int, blank: T, p: int)
    requires Linked(nodes, chain, contents, first, last, blank) && Indexed(index, count, chain, contents)
    requires 0 <= p < |chain|
    ensures nodes[chain[p]].value == contents[p] && contents[p] in index
    ensures Erase(chain, chain[p]) == chain[..p] + chain[p + 1..]
    ensures Erase(contents, contents[p]) == contents[..p] + contents[p + 1..]
    ensures chain[p] !in chain[..p] + chain[p + 1..]
    ensures Indexed(index - {contents[p]}, count - 1, chain[..p] + chain[p + 1..], contents[..p] + contents[p + 1..])
  {
    assert nodes[chain[p]].value == contents[p] by {
      assert LinkedAt(nodes, chain, contents, p);
    }
    assert Erase(chain, chain[p]) == chain[..p] + chain[p + 1..] by {
      IndexOfDistinct(chain, p);
    }
    assert Erase(contents, contents[p]) == contents[..p] + contents[p + 1..] by {
      IndexedDistinct(index, count, chain, contents);
      IndexOfDistinct(contents, p);
    }
    assert Indexed(index - {contents[p]}, count - 1, chain[..p] + chain[p + 1..], contents[..p] + contents[p + 1..]) by {
      Unindex(index, count, chain, contents, p);
    }
    DropDistinct(chain, p);
  }

  /** Relinking nodes of the chain while taking one out keeps the pool sound. */
  lemma {:induction false} UnlinkedPool<T>(items: seq<int>, nodes: seq<Node<T>>, nodes': seq<Node<T>>,
                                           chain: seq<int>, chain': seq<int>, blank: T)
    requires PoolSound(items, nodes, chain, blank, true) && |nodes'| == |nodes|
    requires forall m :: 0 <= m < |nodes| && m !in chain ==> nodes'[m] == nodes[m]
    requires forall c :: c in chain' ==> c in chain
    ensures PoolSound(items, nodes', chain', blank, true)
  {
    forall k | 0 <= k < |items| && items[k] != Nil
      ensures Scrubbed(nodes', items[k], blank) && items[k] !in chain'
    {
      assert Scrubbed(nodes, items[k], blank) && items[k] !in chain;
    }
  }

  /** `AddLast`'s relinking: the old `Last` points forward to the new node, which points
      back to it. */
  lemma {:induction false} LinkLast<T>(nodes: seq<Node<T>>, chain: seq<int>, contents: seq<T>, first: int,
                                       last: int, blank: T, n: int, v: T)
    requires Linked(nodes, chain, contents, first, last, blank) && |chain| > 0
    requires 0 <= n < |nodes| && n !in chain && nodes[n] == Node(v, Nil, Nil)
    ensures Linked(nodes[last := nodes[last].(next := n)][n := nodes[n].(prev := last)],
                   chain + [n], contents + [v], first, n, blank)
  {
    DistinctNoDup(chain);
    var nodes' := nodes[last := nodes[last].(next := n)][n := nodes[n].(prev := last)];
    var chain', contents' := chain + [n], contents + [v];
    var m := |chain|;
    forall i | 0 <= i < |chain'|
      ensures LinkedAt(nodes', chain', contents', i)
    {
      if i == m {
        assert nodes'[n] == Node(v, last, Nil);
      } else {
        assert LinkedAt(nodes, chain, contents, i);
        assert chain'[i] == chain[i] && contents'[i] == contents[i] && chain[i] != n;
        assert PrevOf(chain', i) == PrevOf(chain, i);
        if i == m - 1 {
          assert nodes'[last] == nodes[last].(next := n);
        } else {
          assert chain[i] != chain[m - 1];
          assert NextOf(chain', i) == NextOf(chain, i);
        }
      }
    }
    forall i, j | 0 <= i < j < |chain'|
      ensures chain'[i] != chain'[j]
    {
      if j < m {
        assert chain[i] != chain[j];
      }
    }
    DistinctNoDup(chain');
  }

  /** `AddFirst`'s relinking, symmetric to `LinkLast`. */
  lemma {:induction false} LinkFirst<T>(nodes: seq<Node<T>>, chain: seq<int>, contents: seq<T>, first: int,
                                        last: int, blank: T, n: int, v: T)
    requires Linked(nodes, chain, contents, first, last, blank) && |chain| > 0
    requires 0 <= n < |nodes| && n !in chain && nodes[n] == Node(v, Nil, Nil)
    ensures Linked(nodes[first := nodes[first].(prev := n)][n := nodes[n].(next := first)],
                   [n] + chain, [v] + contents, n, last, blank)
  {
    DistinctNoDup(chain);
    var nodes' := nodes[first := nodes[first].(prev := n)][n := nodes[n].(next := first)];
    var chain', contents' := [n] + chain, [v] + contents;
    forall i | 0 <= i < |chain'|
      ensures LinkedAt(nodes', chain', contents', i)
    {
      if i == 0 {
        assert nodes'[n] == Node(v, Nil, first);
      } else {
        assert LinkedAt(nodes, chain, contents, i - 1);
        var c := chain[i - 1];
        assert chain'[i] == c && contents'[i] == contents[i - 1] && c != n;
        assert NextOf(chain', i) == NextOf(chain, i - 1);
        if i == 1 {
          assert nodes'[first] == nodes[first].(prev := n);
        } else {
          assert c != chain[0];
          assert PrevOf(chain', i) == PrevOf(chain, i - 1);
        }
      }
    }
    forall i, j | 0 <= i < j < |chain'|
      ensures chain'[i] != chain'[j]
    {
      if i > 0 {
        assert chain[i - 1] != chain[j - 1];
      }
    }
    DistinctNoDup(chain');
  }

  /** `Remove` of the `First` node: `First` moves to its successor, whose `Prev` is cleared
      when one remains.  `Last` is not touched. */
  lemma {:induction false} UnlinkFirst<T>(nodes: seq<Node<T>>, chain: seq<int>, contents: seq<T>, first: int,
                                          last: int, blank: T)
    requires Linked(nodes, chain, contents, first, last, blank) && |chain| > 0
    ensures var nodes' := if |chain| > 1 then nodes[chain[1] := nodes[chain[1]].(prev := Nil)] else nodes;
            Linked(nodes', chain[1..], contents[1..], nodes[first].next, last, blank)
            && |nodes'| == |nodes| && nodes'[chain[0]] == nodes[chain[0]]
  {
    DistinctNoDup(chain);
    var nodes' := if |chain| > 1 then nodes[chain[1] := nodes[chain[1]].(prev := Nil)] else nodes;
    var chain', contents' := chain[1..], contents[1..];
    assert LinkedAt(nodes, chain, contents, 0);
    forall i | 0 <= i < |chain'|
      ensures LinkedAt(nodes', chain', contents', i)
    {
      assert LinkedAt(nodes, chain, contents, i + 1);
      assert chain'[i] == chain[i + 1] && contents'[i] == contents[i + 1];
      assert NextOf(chain', i) == NextOf(chain, i + 1);
      if i > 0 {
        assert chain[i + 1] != chain[1];
        assert PrevOf(chain', i) == PrevOf(chain, i + 1);
      }
    }
    assert NoDup(chain') by {
      forall i, j | 0 <= i < j < |chain'| ensures chain'[i] != chain'[j] {
        assert chain[i + 1] != chain[j + 1];
      }
    }
    if |chain| > 1 {
      assert chain[0] != chain[1];
    }
    DistinctNoDup(chain');
  }

  /** `Remove` of the `Last` node when it is not also `First`: `Last` moves back to its
      predecessor, whose `Next` is cleared. */
  lemma {:induction false} UnlinkLast<T>(nodes: seq<Node<T>>, chain: seq<int>, contents: seq<T>, first: int,
                                         last: int, blank: T)
    requires Linked(nodes, chain, contents, first, last, blank) && |chain| > 1
    ensures var n := |chain|;
            var nodes' := nodes[chain[n - 2] := nodes[chain[n - 2]].(next := Nil)];
            Linked(nodes', chain[..n - 1], contents[..n - 1], first, nodes[last].prev, blank)
            && |nodes'| == |nodes| && nodes'[last] == nodes[last]
  {
    DistinctNoDup(chain);
    var n := |chain|;
    var b := chain[n - 2];
    var nodes' := nodes[b := nodes[b].(next := Nil)];
    var chain', contents' := chain[..n - 1], contents[..n - 1];
    assert LinkedAt(nodes, chain, contents, n - 1);
    forall i | 0 <= i < |chain'|
      ensures LinkedAt(nodes', chain', contents', i)
    {
      assert LinkedAt(nodes, chain, contents, i);
      var c := chain[i];
      assert chain'[i] == c && contents'[i] == contents[i];
      assert PrevOf(chain', i) == PrevOf(chain, i);
      if i < n - 2 {
        assert c != b && NextOf(chain', i) == NextOf(chain, i);
      }
    }
    assert NoDup(chain') by {
      forall i, j | 0 <= i < j < |chain'| ensures chain'[i] != chain'[j] {
        assert chain[i] != chain[j];
      }
    }
    assert chain[n - 2] != chain[n - 1];
    DistinctNoDup(chain');
  }

  /** The nodes `Remove` relinks around interior position `p`. */
  function Bypass<T>(nodes: seq<Node<T>>, chain: seq<int>, p: int): seq<Node<T>>
    requires 0 < p < |chain| - 1
    requires 0 <= chain[p - 1] < |nodes| && 0 <= chain[p + 1] < |nodes|
  {
    var a, b := chain[p - 1], chain[p + 1];
    nodes[a := nodes[a].(next := b)][b := nodes[b].(prev := a)]
  }

  /** `Remove` of an interior node: its neighbours are linked to each other. */
  lemma {:induction false} UnlinkInner<T>(nodes: seq<Node<T>>, chain: seq<int>, contents: seq<T>, first: int,
                                          last: int, blank: T, p: int)
    requires Linked(nodes, chain, contents, first, last, blank) && 0 < p < |chain| - 1
    ensures LinkedAt(nodes, chain, contents, p - 1) && LinkedAt(nodes, chain, contents, p + 1)
    ensures var nodes' := Bypass(nodes, chain, p);
            Linked(nodes', chain[..p] + chain[p + 1..], contents[..p] + contents[p + 1..], first, last, blank)
            && |nodes'| == |nodes| && nodes'[chain[p]] == nodes[chain[p]]
  {
    DistinctNoDup(chain);
    var a, b := chain[p - 1], chain[p + 1];
    assert LinkedAt(nodes, chain, contents, p - 1) && LinkedAt(nodes, chain, contents, p + 1);
    var nodes' := Bypass(nodes, chain, p);
    var chain', contents' := chain[..p] + chain[p + 1..], contents[..p] + contents[p + 1..];
    DropAt(chain, p);
    DropAt(contents, p);
    assert a != b && chain[p] != a && chain[p] != b;
    forall i | 0 <= i < |chain'|
      ensures LinkedAt(nodes', chain', contents', i)
    {
      var j := if i < p then i else i + 1;
      assert LinkedAt(nodes, chain, contents, j);
      var c := chain[j];
      assert chain'[i] == c && contents'[i] == contents[j];
      if j == p - 1 {
        assert NextOf(chain', i) == b && PrevOf(chain', i) == PrevOf(chain, j);
      } else if j == p + 1 {
        assert PrevOf(chain', i) == a && NextOf(chain', i) == NextOf(chain, j);
      } else {
        assert c != a && c != b;
        if i < p {
          assert NextOf(chain', i) == chain[i + 1];
        } else {
          assert PrevOf(chain', i) == chain[i];
          if i + 1 < |chain'| {
            assert NextOf(chain', i) == chain[i + 2];
          }
        }
      }
    }
    assert NoDup(chain') by {
      forall i, j | 0 <= i < j < |chain'| ensures chain'[i] != chain'[j] {
        var i', j' := if i < p then i else i + 1, if j < p then j else j + 1;
        assert chain'[i] == chain[i'] && chain'[j] == chain[j'];
      }
    }
    assert chain'[0] == first;
    assert chain'[|chain'| - 1] == last;
    DistinctNoDup(chain');
  }

  /** Following `Next` from `first` meets exactly the nodes of `walk`, then `null`. */
  ghost predicate Walks<T>(nodes: seq<Node<T>>, walk: seq<int>, first: int)
  {
    (if |walk| > 0 then first == walk[0] else first == Nil)
    && (forall i :: 0 <= i < |walk| ==> 0 <= walk[i] < |nodes| && nodes[walk[i]].next == NextOf(walk, i))
  }

  /** `nodes` with the first `k` nodes of `walk` reset to blank ones. */
  function ScrubbedUpTo<T>(nodes: seq<Node<T>>, walk: seq<int>, k: nat, blank: T): (r: seq<Node<T>>)
    requires k <= |walk| && forall i :: 0 <= i < |walk| ==> 0 <= walk[i] < |nodes|
    ensures |r| == |nodes|
    ensures forall m {:trigger r[m]} :: 0 <= m < |nodes| ==>
              r[m] == if m in walk[..k] then Node(blank, Nil, Nil) else nodes[m]
  {
    if k == 0 then nodes
    else
      assert walk[..k] == walk[..k - 1] + [walk[k - 1]];
      ScrubbedUpTo(nodes, walk, k - 1, blank)[walk[k - 1] := Node(blank, Nil, Nil)]
  }

  /** `Clear`'s walk from `First`: the chain itself, or the stale scrubbed `First` that an
      earlier `Clear` left behind, or nothing. */
  lemma WalkOfLinked<T>(nodes: seq<Node<T>>, chain: seq<int>, contents: seq<T>, first: int, last: int, blank: T)
    requires Linked(nodes, chain, contents, first, last, blank)
    ensures var walk := if |chain| > 0 then chain else if first != Nil then [first] else [];
            Walks(nodes, walk, first) && Distinct(walk)
  {
    forall i | 0 <= i < |chain|
      ensures nodes[chain[i]].next == NextOf(chain, i)
    {
      assert LinkedAt(nodes, chain, contents, i);
    }
  }

  /** After `Clear` scrubbed every walked node, and pooled them or scrubbed the pool, the
      pool is sound for the empty chain. */
  lemma {:induction false} ClearedSound<T>(items0: seq<int>, nodes0: seq<Node<T>>, chain0: seq<int>, tidy0: bool,
                                           items: seq<int>, nodes: seq<Node<T>>, walk: seq<int>, blank: T,
                                           purge: bool, tidy: bool)
    requires PoolSound(items0, nodes0, chain0, blank, tidy0)
    requires forall i :: 0 <= i < |walk| ==> 0 <= walk[i] < |nodes0|
    requires nodes == ScrubbedUpTo(nodes0, walk, |walk|, blank)
    requires items == if purge then seq(|items0|, _ => Nil) else items0 + walk
    requires tidy ==> tidy0 && walk == []
    ensures PoolSound(items, nodes, [], blank, tidy)
  {
    assert walk[..|walk|] == walk;
    forall j | 0 <= j < |items| && items[j] != Nil
      ensures Scrubbed(nodes, items[j], blank)
    {
      var m := items[j];
      if j < |items0| {
        assert m == items0[j] && Scrubbed(nodes0, m, blank);
        if m in walk {
          var i :| 0 <= i < |walk| && walk[i] == m;
        }
      } else {
        assert m == walk[j - |items0|];
      }
    }
    if tidy && !purge {
      assert items == items0;
    }
  }

  /** After a `Clear` that walked nodes of a tidy pool's chain, the pool is tidy again: the
      walked nodes are new to it and pushed once each, or the pool was scrubbed. */
  lemma {:induction false} ClearedTidy<T>(items0: seq<int>, nodes0: seq<Node<T>>, chain0: seq<int>,
                                          items: seq<int>, nodes: seq<Node<T>>, walk: seq<int>, blank: T,
                                          purge: bool)
    requires PoolSound(items0, nodes0, chain0, blank, true)
    requires Distinct(walk) && forall c :: c in walk ==> c in chain0
    requires forall i :: 0 <= i < |walk| ==> 0 <= walk[i] < |nodes0|
    requires nodes == ScrubbedUpTo(nodes0, walk, |walk|, blank)
    requires items == if purge then seq(|items0|, _ => Nil) else items0 + walk
    ensures PoolSound(items, nodes, [], blank, true)
  {
    ClearedSound(items0, nodes0, chain0, true, items, nodes, walk, blank, purge, false);
    if !purge {
      DistinctNoDup(walk);
      forall k1, k2 | 0 <= k1 < k2 < |items| && items[k1] != Nil
        ensures items[k1] != items[k2]
      {
        var n := |items0|;
        if k2 < n {
          assert items[k1] == items0[k1] && items[k2] == items0[k2];
        } else if k1 < n {
          assert items[k1] == items0[k1] && items[k1] !in chain0;
          assert items[k2] == walk[k2 - n] && items[k2] in chain0;
        } else {
          assert items[k1] == walk[k1 - n] && items[k2] == walk[k2 - n];
        }
      }
    }
  }

  /** `UDLL.CanAdd` on the pooled references `items`, the nodes, the chain, `First` and
      `Last`. */
  ghost predicate Addable<T>(items: seq<int>, nodes: seq<Node<T>>, chain: seq<int>, first: int, last: int, blank: T)
  {
    Nil !in items
    && (|chain| > 0 || first == Nil
        || (first == last && items != [] && items[|items| - 1] == first && PoolSound(items, nodes, chain, blank, true)))
  }

  /** After `Clear` of the chain `chain0`, whose walk was `walk`: a list of one value cleared
      without purging can take new values again, any other non-empty list cannot. */
  lemma ClearedAddable<T>(items0: seq<int>, chain0: seq<int>, first: int, last: int, items: seq<int>,
                          nodes: seq<Node<T>>, walk: seq<int>, blank: T, purge: bool)
    requires chain0 != [] ==> first == chain0[0] && last == chain0[|chain0| - 1] && first != Nil && walk == chain0
    requires Distinct(chain0)
    requires items == if purge then seq(|items0|, _ => Nil) else items0 + walk
    requires chain0 != [] ==> PoolSound(items, nodes, [], blank, true)
    ensures !purge && |chain0| == 1 && Nil !in items0 ==> Addable(items, nodes, [], first, last, blank)
    ensures chain0 != [] && (purge || |chain0| > 1) ==> !Addable(items, nodes, [], first, last, blank)
  {
    if |chain0| > 1 {
      DistinctAt(chain0, 0, |chain0| - 1);
    }
    if purge && items != [] {
      assert items[0] == Nil;
    }
  }

  /** What `Clear` leaves, from a list linked as `chain0` with `first` and `last`, the pool
      holding `items0`: the pool is sound for the empty chain, tidily so when the list was
      tidy, and the list can take new values again only after a one-value list was cleared
      without purging. */
  lemma Cleared<T>(items0: seq<int>, nodes0: seq<Node<T>>, chain0: seq<int>, contents0: seq<T>, first: int,
                   last: int, items: seq<int>, nodes: seq<Node<T>>, walk: seq<int>, blank: T, purge: bool)
    requires Linked(nodes0, chain0, contents0, first, last, blank)
    requires PoolSound(items0, nodes0, chain0, blank, |chain0| > 0 || first == Nil)
    requires walk == if |chain0| > 0 then chain0 else if first != Nil then [first] else []
    requires Walks(nodes0, walk, first) && Distinct(walk)
    requires nodes == ScrubbedUpTo(nodes0, walk, |walk|, blank)
    requires items == if purge then seq(|items0|, _ => Nil) else items0 + walk
    ensures PoolSound(items, nodes, [], blank, first == Nil)
    ensures |chain0| > 0 || first == Nil ==> PoolSound(items, nodes, [], blank, true)
    ensures !purge && |chain0| == 1 && Nil !in items0 ==> Addable(items, nodes, [], first, last, blank)
    ensures chain0 != [] && (purge || |chain0| > 1) ==> !Addable(items, nodes, [], first, last, blank)
    ensures first != Nil ==> Scrubbed(nodes, first, blank)
  {
    assert walk[..|walk|] == walk;
    var tidy0 := |chain0| > 0 || first == Nil;
    ClearedSound(items0, nodes0, chain0, tidy0, items, nodes, walk, blank, purge, first == Nil);
    if tidy0 {
      ClearedTidy(items0, nodes0, chain0, items, nodes, walk, blank, purge);
    }
    ClearedAddable(items0, chain0, first, last, items, nodes, walk, blank, purge);
  }

  class UDLL<T(==,!new)> {
    /** `_pool`: recycled nodes; `null` once the list is disposed. */
    var pool: UStack?<int>
    /** `_values`: value to node. */
    var index: map<T, int>
    /** `_count`, `First`, `Last`. */
    var count: int
    var first: int
    var last: int
    /** Every node allocated so far, by reference. */
    var nodes: seq<Node<T>>
    /** The value C# writes as `default(T)`. */
    const blank: T

    ghost var Chain: seq<int>
    ghost var Contents: seq<T>

    ghost function Repr(): set<object>
      reads this, pool
    {
      {this} + (if pool != null then pool.Repr() else {})
    }

    /** No stale `First` is left behind by `Clear`. */
    ghost predicate Tidy()
      reads this
    {
      |Chain| > 0 || first == Nil
    }

    ghost predicate Valid()
      reads Repr()
    {
      pool != null && pool.Valid() && pool.blank == Nil && pool.isResizable
      && Linked(nodes, Chain, Contents, first, last, blank)
      && Indexed(index, count, Chain, Contents)
      && PoolSound(pool.Items(), nodes, Chain, blank, Tidy())
    }

    /** The pooled node references, bottom first. */
    ghost function Pooled(): seq<int>
      reads Repr()
      requires Valid()
    {
      pool.Items()
    }

    /** What `AddLast` and `AddFirst` need so as not to corrupt the list: the pool holds no
        `null` left by `UStack.Clear`, and `First` is not a stale node left by `Clear`, unless
        it is the one node a `Clear` without purging walked, which is then `Last` too, on top
        of the pool and pooled once: `_TryAdd` pops it back and makes it the whole list. */
    ghost predicate CanAdd()
      reads Repr()
      requires Valid()
    {
      Addable(Pooled(), nodes, Chain, first, last, blank)
    }

    /** The nodes `Clear` walks: the chain, or the stale `First` that an earlier `Clear`
        left behind. */
    ghost function Walk(): seq<int>
      reads this
    {
      if |Chain| > 0 then Chain else if first != Nil then [first] else []
    }

    /** `UDLL(capacity, resizeModifier)`; the dictionary's constructor throws on a negative
        capacity. */
    constructor (capacity: int, resizeModifier: real, blank: T)
      requires capacity >= 0
      ensures Valid() && CanAdd() && fresh(Repr())
      ensures Contents == [] && count == 0 && first == Nil && Pooled() == []
      ensures pool.size == (if capacity > 0 then capacity else 1)
      ensures this.blank == blank
    {
      this.blank := blank;
      pool := new UStack<int>(capacity, resizeModifier, true, Nil);
      index := map[];
      count := 0;
      first, last := Nil, Nil;
      nodes := [];
      Chain, Contents := [], [];
    }

    function Count(): (n: int)
      reads Repr()
      requires Valid()
      ensures n == |Contents|
    {
      count
    }

    /** `Contains`: one dictionary lookup answers chain membership. */
    predicate Contains(value: T)
      reads Repr()
      requires Valid()
      ensures Contains(value) <==> value in Contents
    {
      value in index
    }

    /** `_GetNode`: a pooled node when there is one, else a new one. */
    method GetNode() returns (node: int)
      requires Valid() && CanAdd()
      modifies this, pool
      ensures Valid() && pool == old(pool) && pool.storage == old(pool.storage)
      ensures Nil !in Pooled() && PoolSound(Pooled(), nodes, Chain, blank, true)
      ensures Chain == old(Chain) && Contents == old(Contents) && index == old(index)
      ensures count == old(count) && first == old(first) && last == old(last)
      ensures Scrubbed(nodes, node, blank) && node !in Chain && node !in Pooled()
      ensures old(Pooled()) != [] ==>
        node == old(Pooled())[|old(Pooled())| - 1] && Pooled() == old(Pooled())[..|old(Pooled())| - 1]
        && nodes == old(nodes)
      ensures old(Pooled()) == [] ==>
        node == old(|nodes|) && nodes == old(nodes) + [Node(blank, Nil, Nil)] && Pooled() == []
    {
      if pool.IsEmpty() {
        GrowArena(nodes, Chain, Contents, first, last, blank, pool.Items(), Tidy());
        node := |nodes|;
        nodes := nodes + [Node(blank, Nil, Nil)];
      } else {
        PopSound(pool.Items(), nodes, Chain, blank);
        node := pool.Pop();
      }
    }

    /** `_TryAdd`: refuses a value already present; otherwise takes a node, stores the value,
        makes it `First` and `Last` of an empty list, and records it in the dictionary.  The
        node is not yet part of `Chain`: the caller links it. */
    method TryAdd(value: T) returns (added: bool, node: int)
      requires Valid() && CanAdd()
      modifies this, pool
      ensures pool == old(pool) && pool.storage == old(pool.storage) && pool.Valid()
      ensures pool.isResizable && Chain == old(Chain) && Contents == old(Contents)
      ensures added <==> value !in old(index)
      ensures !added ==> node == Nil && unchanged(this) && unchanged(pool)
      ensures added ==>
        Linked(nodes, Chain, Contents, if Chain == [] then Nil else old(first),
               if Chain == [] then Nil else old(last), blank)
        && PoolSound(pool.Items(), nodes, Chain, blank, true) && Nil !in pool.Items()
        && 0 <= node < |nodes| && node !in Chain && node !in pool.Items()
        && nodes[node] == Node(value, Nil, Nil)
        && first == (if old(first) == Nil then node else old(first))
        && last == (if old(first) == Nil then node else old(last))
        && index == old(index)[value := node] && count == old(count) + 1
      ensures added && old(pool.Items()) != [] ==>
        node == old(pool.Items())[|old(pool.Items())| - 1]
        && pool.Items() == old(pool.Items())[..|old(pool.Items())| - 1]
      ensures added && old(pool.Items()) == [] ==> pool.Items() == []
    {
      if value in index {
        return false, Nil;
      }
      node := GetNode();
      WriteLoose(nodes, Chain, Contents, if Chain == [] then Nil else first, if Chain == [] then Nil else last,
                 blank, pool.Items(), true, node, Node(value, Nil, Nil));
      nodes := nodes[node := nodes[node].(value := value)];
      if first == Nil {
        first, last := node, node;
      }
      index := index[value := node];
      count := count + 1;
      added := true;
    }

    /** The state `TryAdd` leaves behind when it added `value` in `node`: a valid list with
        the dictionary and count already updated and the node waiting to be linked. */
    ghost predicate Attaching(value: T, node: int, index0: map<T, int>, count0: int)
      reads Repr()
    {
      pool != null && pool.Valid() && pool.blank == Nil && pool.isResizable
      && Linked(nodes, Chain, Contents, if |Chain| == 0 then Nil else first,
                if |Chain| == 0 then Nil else last, blank)
      && Indexed(index0, count0, Chain, Contents) && value !in index0
      && index == index0[value := node] && count == count0 + 1
      && PoolSound(pool.Items(), nodes, Chain, blank, true) && Nil !in pool.Items()
      && 0 <= node < |nodes| && node !in Chain && node !in pool.Items()
      && nodes[node] == Node(value, Nil, Nil)
      && (|Chain| == 0 ==> first == node && last == node)
      && (|Chain| > 0 ==> first != node && last != node)
    }

    /** `AddLast`'s linking step: nothing when `_TryAdd` already made the node the whole
        list, else the node is linked in after `Last`. */
    method LinkAtEnd(value: T, node: int, ghost index0: map<T, int>, ghost count0: int)
      requires Attaching(value, node, index0, count0)
      modifies this
      ensures Valid() && CanAdd() && pool == old(pool) && last == node
      ensures Contents == old(Contents) + [value] && Chain == old(Chain) + [node]
      ensures pool.Items() == old(pool.Items())
    {
      if last == node {
        IndexAppend(index0, count0, Chain, Contents, value, node);
        Chain, Contents := [node], [value];
        assert LinkedAt(nodes, Chain, Contents, 0);
      } else {
        LinkAfterLast(value, node, index0, count0);
      }
    }

    /** `Last.Next = node; node.Prev = Last; Last = node`. */
    method LinkAfterLast(value: T, node: int, ghost index0: map<T, int>, ghost count0: int)
      requires Attaching(value, node, index0, count0) && last != node
      modifies this
      ensures Valid() && CanAdd() && pool == old(pool) && last == node
      ensures Contents == old(Contents) + [value] && Chain == old(Chain) + [node]
      ensures pool.Items() == old(pool.Items())
    {
      IndexAppend(index0, count0, Chain, Contents, value, node);
      LinkLast(nodes, Chain, Contents, first, last, blank, node, value);
      RelinkPool(pool.Items(), nodes, Chain, blank, last, node, nodes[last].(next := node),
                 nodes[node].(prev := last), Chain + [node]);
      var linked := nodes[last := nodes[last].(next := node)][node := nodes[node].(prev := last)];
      nodes, last, Chain, Contents := linked, node, Chain + [node], Contents + [value];
    }

    /** `AddFirst`'s linking step, symmetric to `LinkAtEnd`. */
    method LinkAtFront(value: T, node: int, ghost index0: map<T, int>, ghost count0: int)
      requires Attaching(value, node, index0, count0)
      modifies this
      ensures Valid() && CanAdd() && pool == old(pool) && first == node
      ensures Contents == [value] + old(Contents) && Chain == [node] + old(Chain)
      ensures pool.Items() == old(pool.Items())
    {
      if first == node {
        IndexPrepend(index0, count0, Chain, Contents, value, node);
        Chain, Contents := [node], [value];
        assert LinkedAt(nodes, Chain, Contents, 0);
      } else {
        LinkBeforeFirst(value, node, index0, count0);
      }
    }

    /** `First.Prev = node; node.Next = First; First = node`. */
    method LinkBeforeFirst(value: T, node: int, ghost index0: map<T, int>, ghost count0: int)
      requires Attaching(value, node, index0, count0) && first != node
      modifies this
      ensures Valid() && CanAdd() && pool == old(pool) && first == node
      ensures Contents == [value] + old(Contents) && Chain == [node] + old(Chain)
      ensures pool.Items() == old(pool.Items())
    {
      IndexPrepend(index0, count0, Chain, Contents, value, node);
      LinkFirst(nodes, Chain, Contents, first, last, blank, node, value);
      RelinkPool(pool.Items(), nodes, Chain, blank, first, node, nodes[first].(prev := node),
                 nodes[node].(next := first), [node] + Chain);
      var linked := nodes[first := nodes[first].(prev := node)][node := nodes[node].(next := first)];
      nodes, first, Chain, Contents := linked, node, [node] + Chain, [value] + Contents;
    }

    /** `AddLast`: `null` (here `Nil`) for a value already present; otherwise the node now
        holding the value at the end of the list. */
    method AddLast(value: T) returns (node: int)
      requires Valid() && CanAdd()
      modifies this, pool
      ensures Valid() && CanAdd() && pool == old(pool) && pool.storage == old(pool.storage)
      ensures value in old(Contents) ==> node == Nil && unchanged(this) && unchanged(pool)
      ensures value !in old(Contents) ==>
        node != Nil && Contents == old(Contents) + [value] && Chain == old(Chain) + [node]
        && last == node
      ensures value !in old(Contents) && old(Pooled()) != [] ==>
        node == old(Pooled())[|old(Pooled())| - 1] && Pooled() == old(Pooled())[..|old(Pooled())| - 1]
    {
      ghost var index0, count0 := index, count;
      var added;
      added, node := TryAdd(value);
      if added {
        LinkAtEnd(value, node, index0, count0);
      }
    }

    /** `AddFirst`: as `AddLast`, at the front. */
    method AddFirst(value: T) returns (node: int)
      requires Valid() && CanAdd()
      modifies this, pool
      ensures Valid() && CanAdd() && pool == old(pool) && pool.storage == old(pool.storage)
      ensures value in old(Contents) ==> node == Nil && unchanged(this) && unchanged(pool)
      ensures value !in old(Contents) ==>
        node != Nil && Contents == [value] + old(Contents) && Chain == [node] + old(Chain)
        && first == node
      ensures value !in old(Contents) && old(Pooled()) != [] ==>
        node == old(Pooled())[|old(Pooled())| - 1] && Pooled() == old(Pooled())[..|old(Pooled())| - 1]
    {
      ghost var index0, count0 := index, count;
      var added;
      added, node := TryAdd(value);
      if added {
        LinkAtFront(value, node, index0, count0);
      }
    }

    /** `_Remove`: drops the node's value from the dictionary, scrubs the node, pools it and
        decrements the count.  Called on a node already unlinked from the chain. */
    method Release(node: int)
      requires pool != null && pool.Valid() && pool.blank == Nil && pool.isResizable
      requires Linked(nodes, Chain, Contents, first, last, blank) && Tidy()
      requires 0 <= node < |nodes| && node !in Chain && node !in pool.Items()
      requires nodes[node].value in index
      requires Indexed(index - {nodes[node].value}, count - 1, Chain, Contents)
      requires PoolSound(pool.Items(), nodes, Chain, blank, true)
      modifies this, pool, pool.storage
      ensures Valid() && pool == old(pool) && fresh(pool.Repr() - old(pool.Repr()))
      ensures Chain == old(Chain) && Contents == old(Contents) && first == old(first) && last == old(last)
      ensures Pooled() == old(pool.Items()) + [node]
    {
      index := index - {nodes[node].value};
      ScrubLoose(nodes, Chain, Contents, first, last, blank, pool.Items(), true, node);
      nodes := nodes[node := Node(blank, Nil, Nil)];
      PushSound(pool.Items(), nodes, Chain, blank, true, node);
      var ok := pool.Push(node);
      count := count - 1;
    }

    /** Unlinking the `First` node: `First` moves to its successor, whose `Prev` is cleared
        when one remains. */
    method UnlinkHead()
      requires Linked(nodes, Chain, Contents, first, last, blank) && |Chain| > 0 && count == |Chain|
      modifies this
      ensures Linked(nodes, Chain, Contents, first, last, blank)
      ensures Chain == old(Chain[1..]) && Contents == old(Contents[1..])
      ensures |nodes| == old(|nodes|) && nodes[old(first)] == old(nodes[first])
      ensures forall m :: 0 <= m < |nodes| && m !in old(Chain) ==> nodes[m] == old(nodes[m])
      ensures pool == old(pool) && index == old(index) && count == old(count) && last == old(last)
      ensures Chain == [] ==> first == Nil
    {
      assert LinkedAt(nodes, Chain, Contents, 0);
      UnlinkFirst(nodes, Chain, Contents, first, last, blank);
      if count > 1 {
        assert LinkedAt(nodes, Chain, Contents, 1);
      }
      first := nodes[first].next;
      if count > 1 {
        nodes := nodes[first := nodes[first].(prev := Nil)];
      }
      Chain, Contents := Chain[1..], Contents[1..];
    }

    /** Unlinking the `Last` node of a list of two or more: `Last` moves back to its
        predecessor, whose `Next` is cleared. */
    method UnlinkTail()
      requires Linked(nodes, Chain, Contents, first, last, blank) && |Chain| > 1 && count == |Chain|
      modifies this
      ensures Linked(nodes, Chain, Contents, first, last, blank)
      ensures Chain == old(Chain[..|Chain| - 1]) && Contents == old(Contents[..|Contents| - 1])
      ensures |nodes| == old(|nodes|) && nodes[old(last)] == old(nodes[last])
      ensures forall m :: 0 <= m < |nodes| && m !in old(Chain) ==> nodes[m] == old(nodes[m])
      ensures pool == old(pool) && index == old(index) && count == old(count) && first == old(first)
    {
      ghost var n := |Chain|;
      assert LinkedAt(nodes, Chain, Contents, n - 1);
      assert LinkedAt(nodes, Chain, Contents, n - 2);
      UnlinkLast(nodes, Chain, Contents, first, last, blank);
      last := nodes[last].prev;
      nodes := nodes[last := nodes[last].(next := Nil)];
      Chain, Contents := Chain[..n - 1], Contents[..n - 1];
    }

    /** Unlinking the interior node at position `p`: its neighbours are linked to each
        other. */
    method UnlinkMiddle(node: int, ghost p: int)
      requires Linked(nodes, Chain, Contents, first, last, blank) && 0 < p < |Chain| - 1 && node == Chain[p]
      modifies this
      ensures Linked(nodes, Chain, Contents, first, last, blank)
      ensures Chain == old(Chain[..p] + Chain[p + 1..]) && Contents == old(Contents[..p] + Contents[p + 1..])
      ensures |nodes| == old(|nodes|) && nodes[node] == old(nodes[node])
      ensures forall m :: 0 <= m < |nodes| && m !in old(Chain) ==> nodes[m] == old(nodes[m])
      ensures pool == old(pool) && index == old(index) && count == old(count)
      ensures first == old(first) && last == old(last)
    {
      UnlinkInner(nodes, Chain, Contents, first, last, blank, p);
      assert LinkedAt(nodes, Chain, Contents, p);
      ghost var bypassed := Bypass(nodes, Chain, p);
      DistinctAt(Chain, p - 1, p + 1);
      var before, after := nodes[node].prev, nodes[node].next;
      assert before == Chain[p - 1] && after == Chain[p + 1] && before != after;
      nodes := nodes[before := nodes[before].(next := after)];
      nodes := nodes[after := nodes[after].(prev := before)];
      assert nodes == bypassed;
      Chain, Contents := Chain[..p] + Chain[p + 1..], Contents[..p] + Contents[p + 1..];
    }

    /** The unlinking half of `Remove(UDLLNode<T>)`: `First` or `Last` moves past the node
        when it is one of them, otherwise its neighbours are linked to each other.  Only
        nodes of the chain are written. */
    method Unlink(node: int)
      requires Linked(nodes, Chain, Contents, first, last, blank) && node in Chain
      requires count == |Chain|
      modifies this
      ensures Linked(nodes, Chain, Contents, first, last, blank)
      ensures var p := IndexOf(old(Chain), node);
              Chain == old(Chain[..p] + Chain[p + 1..]) && Contents == old(Contents[..p] + Contents[p + 1..])
      ensures |nodes| == old(|nodes|) && nodes[node] == old(nodes[node])
      ensures forall m :: 0 <= m < |nodes| && m !in old(Chain) ==> nodes[m] == old(nodes[m])
      ensures pool == old(pool) && index == old(index) && count == old(count)
      ensures Chain == [] ==> first == Nil && last == old(last)
    {
      ghost var p := IndexOf(Chain, node);
      ghost var chain0, contents0 := Chain, Contents;
      if node == first {
        assert p == 0;
        UnlinkHead();
        assert chain0[..p] + chain0[p + 1..] == Chain;
        assert contents0[..p] + contents0[p + 1..] == Contents;
      } else if node == last {
        IndexOfDistinct(Chain, |Chain| - 1);
        UnlinkTail();
        assert chain0[..p] + chain0[p + 1..] == Chain;
        assert contents0[..p] + contents0[p + 1..] == Contents;
      } else {
        assert 0 < p < |Chain| - 1 by {
          assert Chain[0] == first && Chain[|Chain| - 1] == last;
        }
        UnlinkMiddle(node, p);
      }
    }

    /** The relinking half of `Remove(UDLLNode<T>)`: the node leaves the chain and its value
        leaves the lookup, while the node itself still holds its links and value. */
    method Detach(node: int)
      requires Valid() && node in Chain
      modifies this
      ensures pool == old(pool) && pool.Valid() && pool.blank == Nil && pool.isResizable
      ensures pool.Items() == old(pool.Items())
      ensures Linked(nodes, Chain, Contents, first, last, blank) && Tidy()
      ensures 0 <= node < |nodes| && node !in Chain && node !in pool.Items()
      ensures nodes[node] == old(nodes[node]) && nodes[node].value in index
      ensures Indexed(index - {nodes[node].value}, count - 1, Chain, Contents)
      ensures PoolSound(pool.Items(), nodes, Chain, blank, true)
      ensures old(nodes[node].value) in old(Contents)
      ensures Chain == Erase(old(Chain), node) && Contents == Erase(old(Contents), old(nodes[node].value))
      ensures Chain == [] ==> first == Nil && last == old(last)
    {
      ErasedAt(nodes, index, count, Chain, Contents, first, last, blank, IndexOf(Chain, node));
      Unlink(node);
      UnlinkedPool(pool.Items(), old(nodes), nodes, old(Chain), Chain, blank);
    }

    /** `Remove(UDLLNode<T>)`: unlinks a node of the list and releases it.  Removing the only
        node leaves `Last` pointing at the released node; nothing reads `Last` on an empty
        list. */
    method RemoveNode(node: int)
      requires Valid() && node in Chain
      modifies Repr()
      ensures Valid() && pool == old(pool) && fresh(pool.Repr() - old(pool.Repr()))
      ensures old(nodes[node].value) in old(Contents)
      ensures Chain == Erase(old(Chain), node) && Contents == Erase(old(Contents), old(nodes[node].value))
      ensures Pooled() == old(Pooled()) + [node]
      ensures Chain == [] ==> first == Nil && last == old(last)
    {
      Detach(node);
      Release(node);
    }

    /** `Remove(T)`: removes the value's node when the value is present, else does nothing. */
    method Remove(value: T)
      requires Valid()
      modifies Repr()
      ensures Valid() && pool == old(pool) && fresh(pool.Repr() - old(pool.Repr()))
      ensures value !in old(Contents) ==> unchanged(this) && Pooled() == old(Pooled())
      ensures value in old(Contents) ==>
        Contents == Erase(old(Contents), value) && Pooled() == old(Pooled()) + [old(index[value])]
        && old(index[value]) in old(Chain) && Chain == Erase(old(Chain), old(index[value])) && Tidy()
      ensures old(CanAdd()) ==> CanAdd()
    {
      if value in index {
        ghost var i := IndexOf(Contents, value);
        assert LinkedAt(nodes, Chain, Contents, i);
        RemoveNode(index[value]);
      }
    }

    /** `_pool.Push(node)`: the pool is resizable, so the push always succeeds. */
    method Recycle(n: int)
      requires pool != null && pool.Valid() && pool.isResizable
      modifies pool, pool.storage
      ensures pool.Valid() && pool.isResizable && pool.blank == old(pool.blank)
      ensures fresh(pool.Repr() - old(pool.Repr()))
      ensures pool.Items() == old(pool.Items()) + [n]
    {
      var ok := pool.Push(n);
    }

    /** One turn of `Clear`'s loop, at the `k`th node of the walk: scrubs it, pools it unless
        `purge`, and moves on to its successor. */
    method ScrubStep(purge: bool, node: int, scrubbed: seq<Node<T>>, ghost walk: seq<int>, ghost k: int,
                     ghost items0: seq<int>)
      returns (next: int, scrubbed': seq<Node<T>>)
      requires pool != null && pool.Valid() && pool.isResizable
      requires Walks(nodes, walk, first) && Distinct(walk) && 0 <= k < |walk| && node == walk[k]
      requires scrubbed == ScrubbedUpTo(nodes, walk, k, blank)
      requires pool.Items() == if purge then items0 else items0 + walk[..k]
      modifies pool, pool.storage
      ensures pool.Valid() && pool.isResizable && pool.blank == old(pool.blank)
      ensures fresh(pool.Repr() - old(pool.Repr()))
      ensures next == (if k + 1 < |walk| then walk[k + 1] else Nil)
      ensures scrubbed' == ScrubbedUpTo(nodes, walk, k + 1, blank)
      ensures pool.Items() == if purge then items0 else items0 + walk[..k + 1]
    {
      DistinctPrefix(walk, k);
      next := scrubbed[node].next;
      scrubbed' := scrubbed[node := Node(blank, Nil, Nil)];
      if !purge {
        AppendPrefixStep(items0, walk, k);
        Recycle(node);
      }
    }

    /** `Clear`'s loop: follows `Next` from `First`, scrubbing each node met and, unless
        `purge`, pushing it onto the pool. */
    method ScrubWalk(purge: bool, ghost walk: seq<int>) returns (scrubbed: seq<Node<T>>)
      requires pool != null && pool.Valid() && pool.isResizable
      requires Walks(nodes, walk, first) && Distinct(walk)
      modifies pool, pool.storage
      ensures pool.Valid() && pool.isResizable && pool.blank == old(pool.blank)
      ensures fresh(pool.Repr() - old(pool.Repr()))
      ensures scrubbed == ScrubbedUpTo(nodes, walk, |walk|, blank)
      ensures pool.Items() == if purge then old(pool.Items()) else old(pool.Items()) + walk
    {
      var node := first;
      scrubbed := nodes;
      ghost var nodes0, items0 := nodes, pool.Items();
      ghost var k := 0;
      while node != Nil
        modifies pool, pool.storage
        invariant pool.Valid() && pool.isResizable && pool.blank == old(pool.blank)
        invariant fresh(pool.Repr() - old(pool.Repr()))
        invariant 0 <= k <= |walk| && node == (if k < |walk| then walk[k] else Nil)
        invariant scrubbed == ScrubbedUpTo(nodes0, walk, k, blank)
        invariant pool.Items() == if purge then items0 else items0 + walk[..k]
        decreases |walk| - k
      {
        node, scrubbed := ScrubStep(purge, node, scrubbed, walk, k, items0);
        k := k + 1;
      }
      assert k == |walk|;
      assert walk[..k] == walk;
    }

    /** The changes `Clear` makes: the walk from `First` scrubbed and, unless `purge`,
        pooled; the dictionary, the chain and the count emptied; the pool scrubbed when
        `purge`. */
    method Empty(purge: bool, ghost walk: seq<int>)
      requires pool != null && pool.Valid() && pool.isResizable && pool.blank == Nil
      requires Walks(nodes, walk, first) && Distinct(walk)
      modifies this, pool, pool.storage
      ensures pool == old(pool) && pool.Valid() && pool.isResizable && pool.blank == old(pool.blank)
      ensures fresh(pool.Repr() - old(pool.Repr()))
      ensures nodes == ScrubbedUpTo(old(nodes), walk, |walk|, blank)
      ensures pool.Items() == if purge then seq(|old(pool.Items())|, _ => Nil) else old(pool.Items()) + walk
      ensures first == old(first) && last == old(last)
      ensures index == map[] && count == 0 && Chain == [] && Contents == []
    {
      index, count := map[], 0;
      Chain, Contents := [], [];
      nodes := ScrubWalk(purge, walk);
      if purge {
        pool.Clear();
      }
    }

    /** `Clear(purge)`: walks `Next` from `First`, scrubbing every node and pooling it unless
        `purge`; then empties the dictionary, scrubs the pool when `purge`, and zeroes the
        count.  `First` and `Last` keep their old values. */
    method Clear(purge: bool)
      requires Valid()
      modifies Repr()
      ensures Valid() && pool == old(pool) && fresh(pool.Repr() - old(pool.Repr()))
      ensures Contents == [] && count == 0 && first == old(first) && last == old(last)
      ensures !purge ==> Pooled() == old(Pooled()) + old(Walk())
      ensures purge ==> Pooled() == seq(|old(Pooled())|, _ => Nil)
      ensures old(Contents) != [] ==> !Tidy() && Walk() == [first] && nodes[first] == Node(blank, Nil, Nil)
      ensures !purge && |old(Contents)| == 1 && old(CanAdd()) ==> CanAdd()
      ensures old(Contents) != [] && (purge || |old(Contents)| > 1) ==> !CanAdd()
      ensures old(Tidy()) ==> PoolSound(Pooled(), nodes, [], blank, true)
      ensures !purge && old(Nil !in Pooled()) ==> Nil !in Pooled()
    {
      ghost var walk, tidy0 := Walk(), Tidy();
      ghost var nodes0, chain0, contents0, items0 := nodes, Chain, Contents, pool.Items();
      WalkOfLinked(nodes, Chain, Contents, first, last, blank);
      Empty(purge, walk);
      Cleared(items0, nodes0, chain0, contents0, first, last, pool.Items(), nodes, walk, blank, purge);
    }

    /** `Clear` as evidently intended: as `Clear`, and `First` and `Last` are forgotten too, so
        the emptied list is tidy and takes new values.  It starts from a tidy list, which every
        list is while only this `Clear` empties lists. */
    method ClearFixed(purge: bool)
      requires Valid() && Tidy()
      modifies Repr()
      ensures Valid() && Tidy() && pool == old(pool) && fresh(pool.Repr() - old(pool.Repr()))
      ensures Contents == [] && count == 0 && first == Nil && last == Nil
      ensures !purge ==> Pooled() == old(Pooled()) + old(Chain)
      ensures purge ==> Pooled() == seq(|old(Pooled())|, _ => Nil)
      ensures !purge && old(CanAdd()) ==> CanAdd()
    {
      Clear(purge);
      first, last := Nil, Nil;
    }

    /** `Dispose`: a purging `Clear`, then `First`, `Last`, the pool and the dictionary are
        dropped; the list is unusable afterwards. */
    method Dispose()
      requires Valid()
      modifies Repr()
      ensures pool == null && first == Nil && last == Nil && Contents == [] && count == 0 && index == map[]
    {
      Clear(true);
      first, last := Nil, Nil;
      pool := null;
      index := map[];
    }
  }

  /** `AddLast` of a new value followed by `Remove` of it gives the values back, and the
      node goes back to the pool it came from. */
  method AddLastThenRemove<T(==,!new)>(list: UDLL<T>, value: T) returns (node: int)
    requires list.Valid() && list.CanAdd() && value !in list.Contents
    modifies list.Repr()
    ensures list.Valid() && list.CanAdd() && list.Contents == old(list.Contents)
    ensures old(list.Pooled()) != [] ==> list.Pooled() == old(list.Pooled())
  {
    ghost var pooled := list.Pooled();
    assert pooled != [] ==> pooled[..|pooled| - 1] + [pooled[|pooled| - 1]] == pooled;
    node := list.AddLast(value);
    ghost var n := |list.Chain| - 1;
    assert list.Contents[n] == value && list.Chain[n] == node;
    assert list.index[value] == node;
    list.Remove(value);
    EraseAppended(old(list.Contents), value);
  }

  /** `AddFirst` of a new value followed by `Remove` of it gives the values back. */
  method AddFirstThenRemove<T(==,!new)>(list: UDLL<T>, value: T) returns (node: int)
    requires list.Valid() && list.CanAdd() && value !in list.Contents
    modifies list.Repr()
    ensures list.Valid() && list.CanAdd() && list.Contents == old(list.Contents)
    ensures old(list.Pooled()) != [] ==> list.Pooled() == old(list.Pooled())
  {
    ghost var pooled := list.Pooled();
    assert pooled != [] ==> pooled[..|pooled| - 1] + [pooled[|pooled| - 1]] == pooled;
    node := list.AddFirst(value);
    assert list.Contents[0] == value && list.Chain[0] == node;
    assert list.index[value] == node;
    list.Remove(value);
    ErasePrepended(old(list.Contents), value);
  }

  /** A list of one value, cleared without purging and then given a new value, holds just
      that value, in the node the old value had: the stale `First` is popped back. */
  method ClearOneThenAddLast<T(==,!new)>(list: UDLL<T>, value: T) returns (node: int)
    requires list.Valid() && list.CanAdd() && |list.Contents| == 1
    modifies list.Repr()
    ensures list.Valid() && list.CanAdd() && list.Contents == [value]
    ensures node == old(list.first) && list.first == node && list.last == node
  {
    list.Clear(false);
    node := list.AddLast(value);
  }
}
