/**
 Memory as hash.c sees it: an array of hash_entry cells.  A table's buckets are consecutive cells,
 overflow entries are single cells linked through `next`, and spare cells are linked into the free
 list.  Tags say which list a cell is on; they keep all lists disjoint.
 */
module HashMemory {
  import opened Common
  import opened Buckets

  const NULL: int := -1

  datatype Cell<E> = Cell(data: Option<E>, next: int)

  /** A cell on bucket `bucket` of table `table`, on the free list, or in transit. */
  datatype Tag = Loose(behind: int) | Free(behind: int) | In(table: int, bucket: int, behind: int)

  datatype Mem<E> = Mem(cells: seq<Cell<E>>, tags: seq<Tag>)
  {
    ghost predicate Sane() { |cells| == |tags| }

    ghost predicate Has(p: int) { 0 <= p < |cells| }

    ghost function Set(p: int, cell: Cell<E>, tag: Tag): Mem<E>
      requires Sane() && Has(p)
    {
      Mem(cells[p := cell], tags[p := tag])
    }
  }

  // ---------- one bucket ----------

  /** `c` runs from the head cell over the overflow cells of bucket `i` of table `t` and carries `es`. */
  ghost predicate ChainOk<E>(m: Mem<E>, t: int, i: int, head: int, c: seq<int>, es: seq<E>, open: bool)
    requires m.Sane()
  {
    && 1 <= |c| && c[0] == head
    && (forall k {:trigger c[k]} :: 0 <= k < |c| ==> m.Has(c[k]) && m.tags[c[k]] == In(t, i, |c| - 1 - k))
    && (forall k {:trigger m.cells[c[k]]} :: 0 <= k < |c| - 1 ==> m.cells[c[k]].next == c[k + 1])
    && (!open ==> m.cells[c[|c| - 1]].next == NULL)
    && (es == [] ==> |c| == 1 && m.cells[c[0]].data == None)
    && (es != [] ==> |c| == |es| && forall k {:trigger m.cells[c[k]]} :: 0 <= k < |c| ==>
          m.cells[c[k]].data == Some(es[k]))
  }

  /** Bucket `i` of table `t` has the same cells in both memories. */
  ghost predicate Keeps<E>(m: Mem<E>, m': Mem<E>, t: int, i: int) {
    && m.Sane() && m'.Sane() && |m.cells| <= |m'.cells|
    && forall p {:trigger m.tags[p]} :: m.Has(p) && m.tags[p].In? && m.tags[p].table == t && m.tags[p].bucket == i ==>
         m'.tags[p] == m.tags[p] && m'.cells[p] == m.cells[p]
  }

  lemma {:induction false} ChainKept<E>(m: Mem<E>, m': Mem<E>, t: int, i: int, head: int, c: seq<int>, es: seq<E>,
                                    open: bool)
    requires Keeps(m, m', t, i) && ChainOk(m, t, i, head, c, es, open)
    ensures ChainOk(m', t, i, head, c, es, open)
  {
    forall k | 0 <= k < |c|
      ensures m'.Has(c[k]) && m'.tags[c[k]] == m.tags[c[k]] && m'.cells[c[k]] == m.cells[c[k]]
    {
      assert m.tags[c[k]] == In(t, i, |c| - 1 - k);
    }
  }

  /** Cell `n` with entry `e` is linked right behind the head of an occupied bucket. */
  ghost function LinkCell<E>(m: Mem<E>, t: int, i: int, c: seq<int>, n: int, e: E): Mem<E>
    requires m.Sane() && m.Has(n) && c != [] && m.Has(c[0])
  {
    var first := m.Set(n, Cell(Some(e), m.cells[c[0]].next), In(t, i, |c| - 1));
    first.Set(c[0], Cell(m.cells[c[0]].data, n), In(t, i, |c|))
  }

  lemma {:induction false} LinkCellChain<E>(m: Mem<E>, t: int, i: int, c: seq<int>, es: seq<E>, n: int, e: E)
    requires m.Sane() && m.Has(n) && c != [] && es != [] && ChainOk(m, t, i, c[0], c, es, false)
    requires !(m.tags[n].In? && m.tags[n].table == t && m.tags[n].bucket == i)
    ensures ChainOk(LinkCell(m, t, i, c, n, e), t, i, c[0], [c[0], n] + c[1..], [es[0], e] + es[1..], false)
  {
    var m', c', es' := LinkCell(m, t, i, c, n, e), [c[0], n] + c[1..], [es[0], e] + es[1..];
    assert m.tags[c[0]] == In(t, i, |c| - 1);
    forall k | 2 <= k < |c'|
      ensures c'[k] == c[k - 1] && m'.cells[c'[k]] == m.cells[c[k - 1]] && m'.tags[c'[k]] == m.tags[c[k - 1]]
    {
      assert m.tags[c[k - 1]] == In(t, i, |c| - k);
    }
    forall k | 0 <= k < |c'| - 1
      ensures m'.cells[c'[k]].next == c'[k + 1]
    {
      assert k == 1 ==> m.cells[c[0]].next == c[1];
      assert k >= 2 ==> m.cells[c[k - 1]].next == c[k];
    }
  }

  /** The entry `e` is stored in the head of an empty bucket. */
  lemma {:induction false} FillChain<E>(m: Mem<E>, t: int, i: int, c: seq<int>, e: E)
    requires m.Sane() && c != [] && ChainOk(m, t, i, c[0], c, [], false)
    ensures ChainOk(m.Set(c[0], Cell(Some(e), m.cells[c[0]].next), m.tags[c[0]]), t, i, c[0], c, [e], false)
  {
  }

  /** The overflow cells of a chain, cut off behind the head. */
  ghost predicate LooseOk<E>(m: Mem<E>, p: int, c: seq<int>, es: seq<E>)
    requires m.Sane()
  {
    && |c| == |es|
    && (forall k {:trigger c[k]} :: 0 <= k < |c| ==> m.Has(c[k]) && m.tags[c[k]] == Loose(|c| - 1 - k))
    && (forall k {:trigger m.cells[c[k]]} :: 0 <= k < |c| ==> m.cells[c[k]].data == Some(es[k]))
    && (forall k {:trigger m.cells[c[k]]} :: 0 <= k < |c| - 1 ==> m.cells[c[k]].next == c[k + 1])
    && (if c == [] then p == NULL else p == c[0] && m.cells[c[|c| - 1]].next == NULL)
  }

  lemma {:induction false} LooseStep<E>(m: Mem<E>, p: int, c: seq<int>, es: seq<E>)
    requires m.Sane() && LooseOk(m, p, c, es) && p != NULL
    ensures c != [] && p == c[0] && m.Has(p) && m.tags[p].Loose? && m.cells[p].data == Some(es[0])
    ensures LooseOk(m, m.cells[p].next, c[1..], es[1..]) && p !in c[1..]
  {
    var rest := c[1..];
    assert forall k {:trigger rest[k]} :: 0 <= k < |rest| ==> rest[k] == c[k + 1] && m.tags[c[k + 1]] != m.tags[c[0]];
    assert forall k {:trigger rest[k]} :: 0 <= k < |rest| - 1 ==> m.cells[c[k + 1]].next == c[k + 2];
  }

  /** Tags the cells of `c` with the number of cells behind each of them. */
  ghost function Mark(tags: seq<Tag>, c: seq<int>, tag: int -> Tag): (r: seq<Tag>)
    requires forall k {:trigger c[k]} :: 0 <= k < |c| ==> 0 <= c[k] < |tags|
    ensures |r| == |tags|
    ensures forall p {:trigger r[p]} :: 0 <= p < |r| && p !in c ==> r[p] == tags[p]
  {
    if c == [] then tags else Mark(tags, c[1..], tag)[c[0] := tag(|c| - 1)]
  }

  lemma {:induction false} MarkAt(tags: seq<Tag>, c: seq<int>, tag: int -> Tag, k: nat)
    requires forall j {:trigger c[j]} :: 0 <= j < |c| ==> 0 <= c[j] < |tags|
    requires forall i, j {:trigger c[i], c[j]} :: 0 <= i < j < |c| ==> c[i] != c[j]
    requires k < |c|
    ensures Mark(tags, c, tag)[c[k]] == tag(|c| - 1 - k)
  {
    if 0 < k { MarkAt(tags, c[1..], tag, k - 1); }
  }

  ghost function CutCells<E>(m: Mem<E>, t: int, i: int, c: seq<int>): Mem<E>
    requires m.Sane() && c != [] && forall k {:trigger c[k]} :: 0 <= k < |c| ==> m.Has(c[k])
  {
    assert m.Has(c[0]);
    assert forall k {:trigger c[1..][k]} :: 0 <= k < |c[1..]| ==> m.Has(c[k + 1]);
    Mem(m.cells, Mark(m.tags, c[1..], b => Loose(b))[c[0] := In(t, i, 0)])
  }

  lemma {:induction false} ChainDistinct<E>(m: Mem<E>, t: int, i: int, c: seq<int>, es: seq<E>, j: nat, k: nat)
    requires m.Sane() && c != [] && ChainOk(m, t, i, c[0], c, es, false) && j < k < |c|
    ensures c[j] != c[k]
  {
    assert m.tags[c[j]].behind != m.tags[c[k]].behind;
  }

  lemma {:induction false} CutTags<E>(m: Mem<E>, t: int, i: int, c: seq<int>, es: seq<E>, k: nat)
    requires m.Sane() && c != [] && ChainOk(m, t, i, c[0], c, es, false) && 0 < k < |c|
    ensures CutCells(m, t, i, c).tags[c[k]] == Loose(|c| - 1 - k)
  {
    var rest := c[1..];
    forall a, b | 0 <= a < b < |rest|
      ensures rest[a] != rest[b]
    {
      ChainDistinct(m, t, i, c, es, a + 1, b + 1);
    }
    ChainDistinct(m, t, i, c, es, 0, k);
    assert forall j {:trigger rest[j]} :: 0 <= j < |rest| ==> m.Has(c[j + 1]);
    assert rest[k - 1] == c[k];
    MarkAt(m.tags, rest, b => Loose(b), k - 1);
  }

  lemma {:induction false} CutHead<E>(m: Mem<E>, t: int, i: int, c: seq<int>, es: seq<E>)
    requires m.Sane() && c != [] && es != [] && ChainOk(m, t, i, c[0], c, es, false)
    ensures ChainOk(CutCells(m, t, i, c), t, i, c[0], [c[0]], [es[0]], true)
  {
  }

  lemma {:induction false} CutRest<E>(m: Mem<E>, t: int, i: int, c: seq<int>, es: seq<E>)
    requires m.Sane() && c != [] && es != [] && ChainOk(m, t, i, c[0], c, es, false)
    ensures LooseOk(CutCells(m, t, i, c), m.cells[c[0]].next, c[1..], es[1..])
  {
    var rest, rs := c[1..], es[1..];
    forall k | 0 <= k < |rest|
      ensures m.Has(rest[k]) && CutCells(m, t, i, c).tags[rest[k]] == Loose(|rest| - 1 - k)
    {
      CutTags(m, t, i, c, es, k + 1);
    }
    CutLinks(m, t, i, c, es);
  }

  lemma {:induction false} CutLinks<E>(m: Mem<E>, t: int, i: int, c: seq<int>, es: seq<E>)
    requires m.Sane() && c != [] && es != [] && ChainOk(m, t, i, c[0], c, es, false)
    ensures var rest, rs := c[1..], es[1..];
            && (forall k {:trigger rest[k]} :: 0 <= k < |rest| ==>
                  m.Has(rest[k]) && m.cells[rest[k]].data == Some(rs[k]))
            && (forall k {:trigger rest[k]} :: 0 <= k < |rest| - 1 ==> m.cells[rest[k]].next == rest[k + 1])
            && m.cells[c[0]].next == (if rest == [] then NULL else rest[0])
            && (rest != [] ==> m.cells[rest[|rest| - 1]].next == NULL)
  {
    assert forall k {:trigger c[1..][k]} :: 0 <= k < |c| - 1 ==>
             c[1..][k] == c[k + 1] && m.cells[c[k + 1]].data == Some(es[k + 1]);
    assert forall k {:trigger c[1..][k]} :: 0 <= k < |c| - 2 ==> m.cells[c[k + 1]].next == c[k + 2];
  }

  // ---------- the free list ----------

  ghost predicate FreeOk<E>(m: Mem<E>, head: int, free: seq<int>) {
    && m.Sane()
    && (forall k {:trigger free[k]} :: 0 <= k < |free| ==> m.Has(free[k]) && m.tags[free[k]] == Free(|free| - 1 - k))
    && (forall k {:trigger m.cells[free[k]]} :: 0 <= k < |free| - 1 ==> m.cells[free[k]].next == free[k + 1])
    && (if free == [] then head == NULL else head == free[0] && m.cells[free[|free| - 1]].next == NULL)
  }

  lemma {:induction false} PushFree<E>(m: Mem<E>, head: int, free: seq<int>, p: int)
    requires FreeOk(m, head, free) && m.Has(p) && !m.tags[p].Free?
    ensures FreeOk(m.Set(p, Cell(None, head), Free(|free|)), p, [p] + free)
  {
    var m', free' := m.Set(p, Cell(None, head), Free(|free|)), [p] + free;
    forall k | 0 < k < |free'|
      ensures free'[k] == free[k - 1] && m'.tags[free'[k]] == m.tags[free[k - 1]]
      ensures m'.cells[free'[k]] == m.cells[free[k - 1]]
    {
      assert m.tags[free[k - 1]].Free?;
    }
    assert forall k {:trigger free'[k]} :: 0 < k < |free'| - 1 ==> m.cells[free[k - 1]].next == free[k];
  }

  lemma {:induction false} PopFree<E>(m: Mem<E>, head: int, free: seq<int>)
    requires FreeOk(m, head, free) && free != []
    ensures FreeOk(Mem(m.cells, m.tags[head := Loose(0)]), m.cells[head].next, free[1..])
  {
    var m', free' := Mem(m.cells, m.tags[head := Loose(0)]), free[1..];
    assert m.tags[free[0]] == Free(|free| - 1);
    forall k | 0 <= k < |free'|
      ensures free'[k] == free[k + 1] && m'.tags[free'[k]] == m.tags[free[k + 1]]
    {
      assert m.tags[free[k + 1]] == Free(|free| - 2 - k);
    }
    assert forall k {:trigger free'[k]} :: 0 <= k < |free'| - 1 ==> m.cells[free[k + 1]].next == free[k + 2];
    assert |free| > 1 ==> m.cells[free[0]].next == free[1];
  }

  // ---------- a whole table ----------

  /** What a table holds: per bucket its cells and its entries. */
  datatype View<E> = View(id: int, base: int, chains: seq<seq<int>>, contents: Chains<E>)

  ghost predicate BucketsOk<E>(m: Mem<E>, v: View<E>, open: int) {
    && m.Sane() && |v.chains| == |v.contents|
    && forall i {:trigger v.chains[i]} :: 0 <= i < |v.chains| ==>
         ChainOk(m, v.id, i, v.base + i, v.chains[i], v.contents[i], i == open)
  }

  lemma {:induction false} BucketsKept<E>(m: Mem<E>, m': Mem<E>, v: View<E>, open: int)
    requires BucketsOk(m, v, open)
    requires m'.Sane() && forall i {:trigger v.chains[i]} :: 0 <= i < |v.chains| ==> Keeps(m, m', v.id, i)
    ensures BucketsOk(m', v, open)
  {
    forall i | 0 <= i < |v.chains|
      ensures ChainOk(m', v.id, i, v.base + i, v.chains[i], v.contents[i], i == open)
    {
      ChainKept(m, m', v.id, i, v.base + i, v.chains[i], v.contents[i], i == open);
    }
  }

  /** Only the cells `ps` may differ. */
  ghost predicate Only<E>(m: Mem<E>, m': Mem<E>, ps: set<int>) {
    && m.Sane() && m'.Sane() && |m.cells| <= |m'.cells|
    && forall p {:trigger m.tags[p]} {:trigger m.cells[p]} :: 0 <= p < |m.cells| && p !in ps ==>
         m'.tags[p] == m.tags[p] && m'.cells[p] == m.cells[p]
  }

  ghost predicate OnTable<E>(m: Mem<E>, t: int, p: int) {
    0 <= p < |m.tags| && m.tags[p].In? && m.tags[p].table == t
  }

  lemma {:induction false} OnlyKeeps<E>(m: Mem<E>, m': Mem<E>, ps: set<int>, t: int, h: int, i: int)
    requires Only(m, m', ps) && i != h
    requires forall p {:trigger OnTable(m, t, p)} :: p in ps && OnTable(m, t, p) ==> m.tags[p].bucket == h
    ensures Keeps(m, m', t, i)
  {
    forall p | 0 <= p < |m.cells| && OnTable(m, t, p) && m.tags[p].bucket == i
      ensures m'.tags[p] == m.tags[p] && m'.cells[p] == m.cells[p]
    {
    }
  }

  lemma {:induction false} BucketKept<E>(m: Mem<E>, m': Mem<E>, ps: set<int>, v: View<E>, h: nat, i: nat)
    requires BucketsOk(m, v, h) || BucketsOk(m, v, -1)
    requires h < |v.chains| && i < |v.chains| && i != h
    requires Only(m, m', ps)
    requires forall p {:trigger OnTable(m, v.id, p)} :: p in ps && OnTable(m, v.id, p) ==> m.tags[p].bucket == h
    ensures ChainOk(m', v.id, i, v.base + i, v.chains[i], v.contents[i], false)
  {
    OnlyKeeps(m, m', ps, v.id, h, i);
    ChainKept(m, m', v.id, i, v.base + i, v.chains[i], v.contents[i], false);
  }

  /** Replaces what bucket `h` holds, when memory changed only there and off the table. */
  lemma {:induction false} ReplaceBucket<E>(m: Mem<E>, m': Mem<E>, ps: set<int>, v: View<E>, h: nat, c: seq<int>,
        es: seq<E>, open: int, open': int)
    requires BucketsOk(m, v, open) && h < |v.chains| && (open == -1 || open == h) && (open' == -1 || open' == h)
    requires Only(m, m', ps)
    requires forall p {:trigger OnTable(m, v.id, p)} :: p in ps && OnTable(m, v.id, p) ==> m.tags[p].bucket == h
    requires ChainOk(m', v.id, h, v.base + h, c, es, h == open')
    ensures BucketsOk(m', v.(chains := v.chains[h := c], contents := v.contents[h := es]), open')
  {
    var v' := v.(chains := v.chains[h := c], contents := v.contents[h := es]);
    forall i | 0 <= i < |v'.chains|
      ensures ChainOk(m', v.id, i, v.base + i, v'.chains[i], v'.contents[i], i == open')
    {
      if i != h {
        BucketKept(m, m', ps, v, h, i);
        assert v'.chains[i] == v.chains[i] && v'.contents[i] == v.contents[i];
      }
    }
  }

  /** Off table `t`, only the cell `n` may differ. */
  ghost predicate Within<E>(m: Mem<E>, m': Mem<E>, t: int, n: int) {
    && m.Sane() && m'.Sane() && |m.cells| <= |m'.cells|
    && forall p {:trigger m.tags[p]} {:trigger m.cells[p]} :: 0 <= p < |m.cells| && p != n && !OnTable(m, t, p) ==>
         m'.tags[p] == m.tags[p] && m'.cells[p] == m.cells[p]
  }

  lemma {:induction false} OtherTableKept<E>(m: Mem<E>, m': Mem<E>, t: int, n: int, v: View<E>, open: int)
    requires Within(m, m', t, n) && BucketsOk(m, v, open) && v.id != t && !OnTable(m, v.id, n)
    ensures BucketsOk(m', v, open)
  {
    forall i | 0 <= i < |v.chains|
      ensures Keeps(m, m', v.id, i)
    {
      forall p | 0 <= p < |m.cells| && OnTable(m, v.id, p)
        ensures m'.tags[p] == m.tags[p] && m'.cells[p] == m.cells[p]
      {
      }
    }
    BucketsKept(m, m', v, open);
  }

  /** Off table `t`, only free cells may differ. */
  ghost predicate SparesAside<E>(m: Mem<E>, m': Mem<E>, t: int) {
    && m.Sane() && m'.Sane() && |m.cells| <= |m'.cells|
    && forall p {:trigger m.tags[p]} {:trigger m.cells[p]} ::
         0 <= p < |m.cells| && !OnTable(m, t, p) && !m.tags[p].Free? ==>
           m'.tags[p] == m.tags[p] && m'.cells[p] == m.cells[p]
  }

  lemma {:induction false} OtherTableAside<E>(m: Mem<E>, m': Mem<E>, t: int, v: View<E>, open: int)
    requires SparesAside(m, m', t) && BucketsOk(m, v, open) && v.id != t
    ensures BucketsOk(m', v, open)
  {
    forall i | 0 <= i < |v.chains|
      ensures Keeps(m, m', v.id, i)
    {
      forall p | 0 <= p < |m.cells| && OnTable(m, v.id, p)
        ensures m'.tags[p] == m.tags[p] && m'.cells[p] == m.cells[p]
      {
      }
    }
    BucketsKept(m, m', v, open);
  }

  lemma {:induction false} OnlyOffTable<E>(m: Mem<E>, m': Mem<E>, n: int, v: View<E>)
    requires Only(m, m', {n}) && BucketsOk(m, v, -1) && !OnTable(m, v.id, n)
    ensures BucketsOk(m', v, -1)
  {
    forall i | 0 <= i < |v.chains|
      ensures Keeps(m, m', v.id, i)
    {
      OnlyKeeps(m, m', {n}, v.id, -1, i);
    }
    BucketsKept(m, m', v, -1);
  }

  lemma {:induction false} OnlyOffOpen<E>(m: Mem<E>, m': Mem<E>, n: int, v: View<E>, open: int)
    requires Only(m, m', {n}) && BucketsOk(m, v, open) && !OnTable(m, v.id, n)
    ensures BucketsOk(m', v, open)
  {
    forall i | 0 <= i < |v.chains|
      ensures Keeps(m, m', v.id, i)
    {
      OnlyKeeps(m, m', {n}, v.id, -1, i);
    }
    BucketsKept(m, m', v, open);
  }

  lemma {:induction false} BucketsFramed<E>(m: Mem<E>, m': Mem<E>, v: View<E>)
    requires Only(m, m', {}) && BucketsOk(m, v, -1)
    ensures BucketsOk(m', v, -1)
  {
    forall i | 0 <= i < |v.chains|
      ensures Keeps(m, m', v.id, i)
    {
      OnlyKeeps(m, m', {}, v.id, -1, i);
    }
    BucketsKept(m, m', v, -1);
  }

  lemma {:induction false} FreeListKept<E>(m: Mem<E>, m': Mem<E>, t: int, n: int, head: int, free: seq<int>)
    requires Within(m, m', t, n) && FreeOk(m, head, free) && (m.Has(n) ==> !m.tags[n].Free?)
    ensures FreeOk(m', head, free)
  {
    forall k | 0 <= k < |free|
      ensures m'.tags[free[k]] == m.tags[free[k]] && m'.cells[free[k]] == m.cells[free[k]]
    {
    }
  }

  lemma {:induction false} LooseKept<E>(m: Mem<E>, m': Mem<E>, t: int, n: int, p: int, c: seq<int>, es: seq<E>)
    requires Within(m, m', t, n) && LooseOk(m, p, c, es) && n !in c
    ensures LooseOk(m', p, c, es)
  {
    forall k | 0 <= k < |c|
      ensures m'.tags[c[k]] == m.tags[c[k]] && m'.cells[c[k]] == m.cells[c[k]]
    {
    }
  }

  ghost function LinkView<E>(v: View<E>, h: nat, n: int, e: E): View<E>
    requires h < |v.chains| == |v.contents| && v.chains[h] != []
  {
    v.(chains := v.chains[h := [v.chains[h][0], n] + v.chains[h][1..]], contents := Put(v.contents, h, e))
  }

  lemma {:induction false} HeadCell<E>(m: Mem<E>, v: View<E>, open: int, h: nat)
    requires BucketsOk(m, v, open) && h < |v.chains|
    ensures v.chains[h] != [] && v.chains[h][0] == v.base + h && m.Has(v.base + h)
    ensures OnTable(m, v.id, v.base + h) && m.tags[v.base + h].bucket == h
    ensures m.cells[v.base + h].data == if v.contents[h] == [] then None else Some(v.contents[h][0])
  {
  }

  lemma {:induction false} LinkTable<E>(m: Mem<E>, v: View<E>, h: nat, n: int, e: E)
    requires BucketsOk(m, v, -1) && h < |v.chains| && v.contents[h] != []
    requires m.Has(n) && !m.tags[n].In?
    ensures v.chains[h] != [] && m.Has(v.chains[h][0])
    ensures var m' := LinkCell(m, v.id, h, v.chains[h], n, e);
            BucketsOk(m', LinkView(v, h, n, e), -1) && Within(m, m', v.id, n)
  {
    HeadCell(m, v, -1, h);
    var c, m' := v.chains[h], LinkCell(m, v.id, h, v.chains[h], n, e);
    LinkCellChain(m, v.id, h, c, v.contents[h], n, e);
    ReplaceBucket(m, m', {n, v.base + h}, v, h, [c[0], n] + c[1..], [v.contents[h][0], e] + v.contents[h][1..], -1, -1);
  }

  lemma {:induction false} FillTable<E>(m: Mem<E>, v: View<E>, h: nat, e: E)
    requires BucketsOk(m, v, -1) && h < |v.chains| && v.contents[h] == []
    ensures m.Has(v.base + h)
    ensures var m' := m.Set(v.base + h, Cell(Some(e), m.cells[v.base + h].next), m.tags[v.base + h]);
            BucketsOk(m', v.(contents := Put(v.contents, h, e)), -1) && Within(m, m', v.id, -1)
  {
    HeadCell(m, v, -1, h);
    var c := v.chains[h];
    var m' := m.Set(c[0], Cell(Some(e), m.cells[c[0]].next), m.tags[c[0]]);
    FillChain(m, v.id, h, c, e);
    ReplaceBucket(m, m', {v.base + h}, v, h, c, [e], -1, -1);
    assert v.chains[h := c] == v.chains;
  }

  ghost function CutView<E>(v: View<E>, h: nat): View<E>
    requires h < |v.chains| == |v.contents| && v.chains[h] != [] && v.contents[h] != []
  {
    v.(chains := v.chains[h := [v.chains[h][0]]], contents := v.contents[h := [v.contents[h][0]]])
  }

  lemma {:induction false} CutTable<E>(m: Mem<E>, v: View<E>, h: nat)
    requires BucketsOk(m, v, -1) && h < |v.chains| && v.contents[h] != []
    ensures v.chains[h] != [] && m.Has(v.base + h)
    ensures forall k {:trigger v.chains[h][k]} :: 0 <= k < |v.chains[h]| ==> m.Has(v.chains[h][k])
    ensures BucketsOk(CutCells(m, v.id, h, v.chains[h]), CutView(v, h), h)
    ensures LooseOk(CutCells(m, v.id, h, v.chains[h]), m.cells[v.base + h].next, v.chains[h][1..], v.contents[h][1..])
    ensures Within(m, CutCells(m, v.id, h, v.chains[h]), v.id, -1)
  {
    HeadCell(m, v, -1, h);
    var c := v.chains[h];
    var m' := CutCells(m, v.id, h, c);
    CutHead(m, v.id, h, c, v.contents[h]);
    CutRest(m, v.id, h, c, v.contents[h]);
    var ps := set p | p in c;
    forall p | p in ps
      ensures OnTable(m, v.id, p) && m.tags[p].bucket == h
    {
      var k :| 0 <= k < |c| && c[k] == p;
    }
    ReplaceBucket(m, m', ps, v, h, [c[0]], [v.contents[h][0]], -1, h);
  }

  lemma {:induction false} SealTable<E>(m: Mem<E>, v: View<E>, h: nat)
    requires BucketsOk(m, v, h) && h < |v.chains| && |v.contents[h]| == 1
    ensures m.Has(v.base + h)
    ensures var m' := m.Set(v.base + h, Cell(m.cells[v.base + h].data, NULL), m.tags[v.base + h]);
            BucketsOk(m', v, -1) && Within(m, m', v.id, -1)
  {
    HeadCell(m, v, h, h);
    var c := v.chains[h];
    var m' := m.Set(c[0], Cell(m.cells[c[0]].data, NULL), m.tags[c[0]]);
    ReplaceBucket(m, m', {v.base + h}, v, h, c, v.contents[h], h, -1);
    assert v.chains[h := c] == v.chains && v.contents[h := v.contents[h]] == v.contents;
  }

  lemma {:induction false} EmptyTable<E>(m: Mem<E>, v: View<E>, h: nat)
    requires BucketsOk(m, v, -1) && h < |v.chains| && |v.contents[h]| == 1
    ensures m.Has(v.base + h)
    ensures var m' := m.Set(v.base + h, Cell(None, m.cells[v.base + h].next), m.tags[v.base + h]);
            BucketsOk(m', v.(contents := v.contents[h := []]), -1) && Within(m, m', v.id, -1)
  {
    HeadCell(m, v, -1, h);
    var c := v.chains[h];
    var m' := m.Set(c[0], Cell(None, m.cells[c[0]].next), m.tags[c[0]]);
    ReplaceBucket(m, m', {v.base + h}, v, h, c, [], -1, -1);
    assert v.chains[h := c] == v.chains;
  }

  /** Emptying the head cell of a bucket with one entry; the free list is not touched. */
  lemma {:induction false} EmptyHeadKeeps<E>(m: Mem<E>, v: View<E>, h: nat, head: int, free: seq<int>)
    returns (m': Mem<E>)
    requires BucketsOk(m, v, -1) && FreeOk(m, head, free) && h < |v.chains| && |v.contents[h]| == 1
    ensures m.Has(v.base + h) && m' == m.Set(v.base + h, Cell(None, m.cells[v.base + h].next), m.tags[v.base + h])
    ensures BucketsOk(m', v.(contents := v.contents[h := []]), -1) && FreeOk(m', head, free)
  {
    EmptyTable(m, v, h);
    m' := m.Set(v.base + h, Cell(None, m.cells[v.base + h].next), m.tags[v.base + h]);
    FreeListKept(m, m', v.id, -1, head, free);
  }

  // ---------- a new bucket array ----------

  ghost function NewView<E>(id: int, base: nat, n: nat): View<E> {
    View(id, base, seq(n, i requires 0 <= i < n => [base + i]), seq(n, i requires 0 <= i < n => []))
  }

  ghost function NewCells<E>(m: Mem<E>, id: int, n: nat): Mem<E> {
    Mem(m.cells + seq(n, i requires 0 <= i < n => Cell(None, NULL)),
        m.tags + seq(n, i requires 0 <= i < n => In(id, i, 0)))
  }

  lemma {:induction false} NewTable<E>(m: Mem<E>, id: int, n: nat)
    requires m.Sane()
    ensures BucketsOk(NewCells(m, id, n), NewView(id, |m.cells|, n), -1)
    ensures Within(m, NewCells(m, id, n), id, -1) && Only(m, NewCells(m, id, n), {})
  {
  }

  lemma {:induction false} EmptyContents<E>(b: Chains<E>)
    requires forall i {:trigger b[i]} :: 0 <= i < |b| ==> b[i] == []
    ensures Size(b) == 0 && Used(b) == 0 && Entries(b) == multiset{}
  {
    if b != [] { EmptyContents(b[..|b| - 1]); }
  }

  // ---------- removing one entry ----------

  ghost function Without<T>(s: seq<T>, j: nat): seq<T>
    requires j < |s|
  {
    s[..j] + s[j + 1..]
  }

  /** One step along a chain. */
  lemma {:induction false} ChainStep<E>(m: Mem<E>, v: View<E>, h: nat, j: nat)
    requires BucketsOk(m, v, -1) && h < |v.chains| && j < |v.contents[h]|
    ensures |v.chains[h]| == |v.contents[h]|
    ensures var p := v.chains[h][j];
            && m.Has(p) && m.tags[p].In?
            && m.cells[p].data == Some(v.contents[h][j])
            && m.cells[p].next == if j + 1 < |v.chains[h]| then v.chains[h][j + 1] else NULL
  {
    assert ChainOk(m, v.id, h, v.base + h, v.chains[h], v.contents[h], false);
  }

  /** The cell behind position `j - 1` of a chain is bypassed; `p` keeps the cell contents `cells`. */
  ghost function BypassCells<E>(m: Mem<E>, t: int, i: int, c: seq<int>, j: nat, cells: seq<Cell<E>>): Mem<E>
    requires m.Sane() && |cells| == |m.cells| && 1 <= j < |c|
    requires forall k {:trigger c[k]} :: 0 <= k < |c| ==> m.Has(c[k])
  {
    assert m.Has(c[j]);
    var c' := Without(c, j);
    assert forall k {:trigger c'[k]} :: 0 <= k < |c'| ==>
             c'[k] == (if k < j then c[k] else c[k + 1]) && m.Has(if k < j then c[k] else c[k + 1]);
    Mem(cells, Mark(m.tags, c', b => In(t, i, b))[c[j] := Loose(0)])
  }

  lemma {:induction false} BypassTags<E>(m: Mem<E>, t: int, i: int, c: seq<int>, es: seq<E>, j: nat,
        cells: seq<Cell<E>>)
    requires m.Sane() && |cells| == |m.cells| && 1 <= j < |c| && ChainOk(m, t, i, c[0], c, es, false)
    ensures var c', m' := Without(c, j), BypassCells(m, t, i, c, j, cells);
            && (forall k {:trigger c'[k]} :: 0 <= k < |c'| ==>
                  m'.tags[c'[k]] == In(t, i, |c'| - 1 - k) && c'[k] != c[j])
            && m'.tags[c[j]] == Loose(0)
  {
    var c', m' := Without(c, j), BypassCells(m, t, i, c, j, cells);
    forall a, b | 0 <= a < b < |c'|
      ensures c'[a] != c'[b]
    {
      ChainDistinct(m, t, i, c, es, if a < j then a else a + 1, if b < j then b else b + 1);
    }
    forall k | 0 <= k < |c'|
      ensures m.Has(c'[k]) && c'[k] != c[j]
    {
      if k < j { ChainDistinct(m, t, i, c, es, k, j); } else { ChainDistinct(m, t, i, c, es, j, k + 1); }
    }
    forall k | 0 <= k < |c'|
      ensures m'.tags[c'[k]] == In(t, i, |c'| - 1 - k)
    {
      MarkAt(m.tags, c', b => In(t, i, b), k);
    }
  }

  /** Unlinking the cell at position `j` behind its predecessor. */
  lemma {:induction false} UnlinkChain<E>(m: Mem<E>, t: int, i: int, c: seq<int>, es: seq<E>, j: nat)
    requires m.Sane() && 1 <= j < |c| && es != [] && ChainOk(m, t, i, c[0], c, es, false)
    ensures m.Has(c[j - 1]) && m.Has(c[j])
    ensures var m' := BypassCells(m, t, i, c, j, m.cells[c[j - 1] := m.cells[c[j - 1]].(next := m.cells[c[j]].next)]);
            ChainOk(m', t, i, c[0], Without(c, j), Without(es, j), false)
  {
    assert m.Has(c[j - 1]) && m.Has(c[j]);
    var cells := m.cells[c[j - 1] := m.cells[c[j - 1]].(next := m.cells[c[j]].next)];
    var c', es', m' := Without(c, j), Without(es, j), BypassCells(m, t, i, c, j, cells);
    BypassTags(m, t, i, c, es, j, cells);
    forall k | 0 <= k < |c'|
      ensures c'[k] == c[if k < j then k else k + 1] && m'.cells[c'[k]].data == Some(es'[k])
      ensures m'.cells[c'[k]].next == if k + 1 < |c'| then c'[k + 1] else NULL
    {
      var o := if k < j then k else k + 1;
      if o < j - 1 { ChainDistinct(m, t, i, c, es, o, j - 1); }
      if o > j - 1 { ChainDistinct(m, t, i, c, es, j - 1, o); }
      assert m.cells[c[o]].data == Some(es[o]);
      assert o + 1 < |c| ==> m.cells[c[o]].next == c[o + 1];
      assert j + 1 < |c| ==> m.cells[c[j]].next == c[j + 1];
    }
  }

  /** Copying the first overflow cell over the head. */
  lemma {:induction false} BumpChain<E>(m: Mem<E>, t: int, i: int, c: seq<int>, es: seq<E>)
    requires m.Sane() && 2 <= |c| && es != [] && ChainOk(m, t, i, c[0], c, es, false)
    ensures m.Has(c[0]) && m.Has(c[1])
    ensures var m' := BypassCells(m, t, i, c, 1, m.cells[c[0] := m.cells[c[1]]]);
            ChainOk(m', t, i, c[0], Without(c, 1), Without(es, 0), false)
  {
    assert m.Has(c[0]) && m.Has(c[1]);
    var cells := m.cells[c[0] := m.cells[c[1]]];
    var c', es', m' := Without(c, 1), Without(es, 0), BypassCells(m, t, i, c, 1, cells);
    BypassTags(m, t, i, c, es, 1, cells);
    forall k | 0 <= k < |c'|
      ensures c'[k] == c[if k == 0 then 0 else k + 1] && m'.cells[c'[k]].data == Some(es'[k])
      ensures m'.cells[c'[k]].next == if k + 1 < |c'| then c'[k + 1] else NULL
    {
      if k > 0 { ChainDistinct(m, t, i, c, es, 0, k + 1); }
      assert m.cells[c[k + 1]].data == Some(es[k + 1]);
      assert k + 2 < |c| ==> m.cells[c[k + 1]].next == c[k + 2];
    }
  }

  /** Taking position `j` of bucket `h` out, whichever way its cell was bypassed. */
  lemma {:induction false} BypassTable<E>(m: Mem<E>, v: View<E>, h: nat, j: nat, out: nat, cells: seq<Cell<E>>)
    requires BucketsOk(m, v, -1) && h < |v.chains| && 1 <= j < |v.chains[h]| && out < |v.contents[h]|
    requires |cells| == |m.cells|
    requires forall p {:trigger cells[p]} :: 0 <= p < |cells| && p !in v.chains[h] ==> cells[p] == m.cells[p]
    requires var m' := BypassCells(m, v.id, h, v.chains[h], j, cells);
             ChainOk(m', v.id, h, v.base + h, Without(v.chains[h], j), Without(v.contents[h], out), false)
    ensures var m' := BypassCells(m, v.id, h, v.chains[h], j, cells);
            && BucketsOk(m', v.(chains := v.chains[h := Without(v.chains[h], j)],
                                contents := v.contents[h := Without(v.contents[h], out)]), -1)
            && Within(m, m', v.id, -1)
  {
    var c := v.chains[h];
    var m' := BypassCells(m, v.id, h, c, j, cells);
    var ps := set p | p in c;
    forall p | p in ps
      ensures OnTable(m, v.id, p) && m.tags[p].bucket == h
    {
      var k :| 0 <= k < |c| && c[k] == p;
    }
    assert Only(m, m', ps) by {
      var c' := Without(c, j);
      assert forall p {:trigger p in c'} :: p in c' ==> p in c;
    }
    ReplaceBucket(m, m', ps, v, h, Without(c, j), Without(v.contents[h], out), -1, -1);
  }

  ghost function BypassView<E>(v: View<E>, h: nat, j: nat, out: nat): View<E>
    requires h < |v.chains| == |v.contents| && j < |v.chains[h]| && out < |v.contents[h]|
  {
    v.(chains := v.chains[h := Without(v.chains[h], j)], contents := v.contents[h := Without(v.contents[h], out)])
  }

  /** `m'` is `m` after cell `next` was taken off bucket `h` of `v`, which left `v'`. */
  ghost predicate TakenOff<E>(m: Mem<E>, v: View<E>, m': Mem<E>, v': View<E>, next: int) {
    && BucketsOk(m', v', -1) && Within(m, m', v.id, -1)
    && m'.Has(next) && m'.tags[next] == Loose(0) && |m'.cells| == |m.cells|
  }

  lemma {:induction false} BumpTable<E>(m: Mem<E>, v: View<E>, h: nat)
    requires BucketsOk(m, v, -1) && h < |v.chains| && 2 <= |v.contents[h]|
    ensures |v.chains[h]| == |v.contents[h]| && m.Has(v.base + h) && m.Has(v.chains[h][1])
    ensures m.cells[v.base + h].next == v.chains[h][1]
    ensures forall k {:trigger v.chains[h][k]} :: 0 <= k < |v.chains[h]| ==> m.Has(v.chains[h][k])
    ensures var next := v.chains[h][1];
            TakenOff(m, v, BypassCells(m, v.id, h, v.chains[h], 1, m.cells[v.base + h := m.cells[next]]),
                BypassView(v, h, 1, 0), next)
  {
    var c := v.chains[h];
    HeadCell(m, v, -1, h);
    ChainStep(m, v, h, 0);
    ChainStep(m, v, h, 1);
    var cells := m.cells[c[0] := m.cells[c[1]]];
    BumpChain(m, v.id, h, c, v.contents[h]);
    BypassTags(m, v.id, h, c, v.contents[h], 1, cells);
    BypassTable(m, v, h, 1, 0, cells);
  }

  lemma {:induction false} UnlinkTable<E>(m: Mem<E>, v: View<E>, h: nat, j: nat)
    requires BucketsOk(m, v, -1) && h < |v.chains| && 1 <= j < |v.contents[h]|
    ensures |v.chains[h]| == |v.contents[h]| && m.Has(v.chains[h][j - 1]) && m.Has(v.chains[h][j])
    ensures forall k {:trigger v.chains[h][k]} :: 0 <= k < |v.chains[h]| ==> m.Has(v.chains[h][k])
    ensures var p, next := v.chains[h][j - 1], v.chains[h][j];
            TakenOff(m, v,
                BypassCells(m, v.id, h, v.chains[h], j, m.cells[p := m.cells[p].(next := m.cells[next].next)]),
                     BypassView(v, h, j, j), next)
  {
    var c := v.chains[h];
    HeadCell(m, v, -1, h);
    ChainStep(m, v, h, j - 1);
    ChainStep(m, v, h, j);
    var cells := m.cells[c[j - 1] := m.cells[c[j - 1]].(next := m.cells[c[j]].next)];
    UnlinkChain(m, v.id, h, c, v.contents[h], j);
    BypassTags(m, v.id, h, c, v.contents[h], j, cells);
    BypassTable(m, v, h, j, j, cells);
  }
}
