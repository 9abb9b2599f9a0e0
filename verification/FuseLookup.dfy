/**
 Looking up a name in a mounted directory: a binary search over the out-of-line blocks, in each of them a binary
 search over its entries, and a last one in the tail.
 */
module FuseLookup {
  import opened Common
  import opened Bytes
  import opened DirCodec
  import opened DirBlocks
  import opened Order

  // ---------- comparing ----------

  /** memcmp: the sign of the first difference among the first `n` bytes. */
  function Memcmp(a: bytes, b: bytes, n: nat): int
    requires n <= |a| && n <= |b|
  {
    if n == 0 then 0 else if a[0] != b[0] then a[0] - b[0] else Memcmp(a[1..], b[1..], n - 1)
  }

  function Memcmp2(a: bytes, b: bytes): int {
    var common := Min(|a|, |b|);
    var res := Memcmp(a, b, common);
    if res != 0 || |a| == |b| then res else if |a| < |b| then -1 else 1
  }

  /** Comparing the common part and then the lengths is the lexicographic order. */
  lemma {:induction false} Memcmp2IsOrder(a: bytes, b: bytes)
    ensures Memcmp2(a, b) < 0 <==> Less(a, b)
    ensures Memcmp2(a, b) == 0 <==> a == b
    ensures Memcmp2(a, b) > 0 <==> Less(b, a)
  {
    if a != [] && b != [] && a[0] == b[0] {
      Memcmp2IsOrder(a[1..], b[1..]);
      assert a == [a[0]] + a[1..] && b == [b[0]] + b[1..];
    }
  }

  // ---------- one block ----------

  ghost predicate Sorted(es: seq<Dirent>) {
    forall i, j {:trigger es[i], es[j]} :: 0 <= i < j < |es| ==> Less(es[i].name, es[j].name)
  }

  /** Found at an index, or how the name relates to the block. */
  datatype Hit = Found(i: nat) | Before | After | Inside

  ghost predicate Hits(es: seq<Dirent>, name: bytes, h: Hit) {
    match h
    case Found(i) => i < |es| && es[i].name == name
    case Before => es != [] && Less(name, es[0].name)
    case After => es != [] && Less(es[|es| - 1].name, name)
    case Inside => es != [] && Less(es[0].name, name) && Less(name, es[|es| - 1].name) && forall k {:trigger es[k]} ::
      0 <= k < |es| ==> es[k].name != name
  }

  lemma {:induction false} ExtendBelow(es: seq<Dirent>, name: bytes, mid: nat)
    requires Sorted(es) && mid < |es| && Less(es[mid].name, name)
    ensures forall k {:trigger es[k]} :: 0 <= k <= mid ==> Less(es[k].name, name)
  {
    forall k | 0 <= k < mid
      ensures Less(es[k].name, name)
    {
      LessTransitive(es[k].name, es[mid].name, name);
    }
  }

  lemma {:induction false} ExtendAbove(es: seq<Dirent>, name: bytes, mid: nat)
    requires Sorted(es) && mid < |es| && Less(name, es[mid].name)
    ensures forall k {:trigger es[k]} :: mid <= k < |es| ==> Less(name, es[k].name)
  {
    forall k | mid < k < |es|
      ensures Less(name, es[k].name)
    {
      LessTransitive(name, es[mid].name, es[k].name);
    }
  }

  lemma {:induction false} NotThere(es: seq<Dirent>, name: bytes, start: nat)
    requires start <= |es|
    requires forall k {:trigger es[k]} :: 0 <= k < start ==> Less(es[k].name, name)
    requires forall k {:trigger es[k]} :: start <= k < |es| ==> Less(name, es[k].name)
    ensures forall k {:trigger es[k]} :: 0 <= k < |es| ==> es[k].name != name
  {
    LessIrreflexive(name);
  }

  /** Exactly one answer fits. */
  lemma {:induction false} HitUnique(es: seq<Dirent>, name: bytes, h: Hit, h': Hit)
    requires Sorted(es) && es != [] && Hits(es, name, h) && Hits(es, name, h')
    ensures h == h'
  {
    LessIrreflexive(name);
    forall k | 0 <= k < |es| && es[k].name == name
      ensures !Less(name, es[0].name) && !Less(es[|es| - 1].name, name)
    {
      if Less(name, es[0].name) { ExtendAbove(es, name, 0); }
      if Less(es[|es| - 1].name, name) { ExtendBelow(es, name, |es| - 1); }
    }
    if Less(name, es[0].name) { ExtendAbove(es, name, 0); }
    if Less(es[|es| - 1].name, name) { ExtendBelow(es, name, |es| - 1); }
    if Less(es[0].name, name) && Less(name, es[0].name) { LessTransitive(name, es[0].name, name); }
    if Less(es[|es| - 1].name, name) && Less(name, es[|es| - 1].name) { LessTransitive(name, es[|es| - 1].name, name); }
  }

  /** The answer for a block. */
  ghost function HitOf(es: seq<Dirent>, name: bytes): Hit
    requires es != []
  {
    if exists i :: 0 <= i < |es| && es[i].name == name then
      var i :| 0 <= i < |es| && es[i].name == name;
      Found(i)
    else if Less(name, es[0].name) then Before
    else if Less(es[|es| - 1].name, name) then After
    else Inside
  }

  lemma {:induction false} HitOfIs(es: seq<Dirent>, name: bytes, h: Hit)
    requires Sorted(es) && es != [] && Hits(es, name, h)
    ensures HitOf(es, name) == h
  {
    HitUnique(es, name, h, HitOf(es, name));
  }

  method LookupBlock(es: seq<Dirent>, name: bytes) returns (h: Hit)
    requires Sorted(es) && es != []
    ensures Hits(es, name, h) && h == HitOf(es, name)
  {
    var start, end := 0, |es| - 1;
    while start <= end
      invariant 0 <= start <= |es| && -1 <= end < |es| && start <= end + 1
      invariant forall k {:trigger es[k]} :: 0 <= k < start ==> Less(es[k].name, name)
      invariant forall k {:trigger es[k]} :: end < k < |es| ==> Less(name, es[k].name)
      decreases end - start
    {
      var mid := start + (end - start) / 2;
      var cmp := Memcmp2(name, es[mid].name);
      Memcmp2IsOrder(name, es[mid].name);
      if cmp == 0 {
        HitOfIs(es, name, Found(mid));
        return Found(mid);
      } else if cmp > 0 {
        ExtendBelow(es, name, mid);
        start := mid + 1;
      } else {
        ExtendAbove(es, name, mid);
        end := mid - 1;
      }
    }
    if end < 0 {
      h := Before;
    } else if start >= |es| {
      h := After;
    } else {
      h := Inside;
      NotThere(es, name, start);
    }
    HitOfIs(es, name, h);
  }

  // ---------- the directory ----------

  ghost function Join(blocks: seq<seq<Dirent>>): seq<Dirent> {
    if blocks == [] then [] else Join(blocks[..|blocks| - 1]) + blocks[|blocks| - 1]
  }

  /** Where block `b` starts among all entries. */
  ghost function StartOf(blocks: seq<seq<Dirent>>, b: nat): nat
    requires b <= |blocks|
  {
    |Join(blocks[..b])|
  }

  ghost function Whole(blocks: seq<seq<Dirent>>, tail: seq<Dirent>): seq<Dirent> {
    Join(blocks) + tail
  }

  ghost predicate DirOk(blocks: seq<seq<Dirent>>, tail: seq<Dirent>) {
    && (forall b {:trigger blocks[b]} :: 0 <= b < |blocks| ==> blocks[b] != [])
    && Sorted(Whole(blocks, tail))
  }

  lemma {:induction false} JoinSlice(blocks: seq<seq<Dirent>>, tail: seq<Dirent>, b: nat)
    requires b < |blocks|
    ensures StartOf(blocks, b + 1) == StartOf(blocks, b) + |blocks[b]| <= |Join(blocks)|
    ensures Whole(blocks, tail)[StartOf(blocks, b)..StartOf(blocks, b) + |blocks[b]|] == blocks[b]
    decreases |blocks|
  {
    var n := |blocks| - 1;
    if b == n {
      assert blocks[..n + 1] == blocks;
    } else {
      JoinSlice(blocks[..n], [], b);
      assert blocks[..n][..b] == blocks[..b] && blocks[..n][..b + 1] == blocks[..b + 1];
      assert Whole(blocks[..n], []) == Join(blocks[..n]);
    }
  }

  /** Every block and the tail are sorted by themselves. */
  lemma {:induction false} BlockSorted(blocks: seq<seq<Dirent>>, tail: seq<Dirent>, b: nat)
    requires DirOk(blocks, tail) && b < |blocks|
    ensures Sorted(blocks[b]) && blocks[b] != []
  {
    JoinSlice(blocks, tail, b);
    var w, o := Whole(blocks, tail), StartOf(blocks, b);
    forall i, j | 0 <= i < j < |blocks[b]|
      ensures Less(blocks[b][i].name, blocks[b][j].name)
    {
      assert w[o..o + |blocks[b]|][i] == w[o + i] && w[o..o + |blocks[b]|][j] == w[o + j];
    }
  }

  lemma {:induction false} TailSorted(blocks: seq<seq<Dirent>>, tail: seq<Dirent>)
    requires DirOk(blocks, tail)
    ensures Sorted(tail)
  {
    var w, o := Whole(blocks, tail), |Join(blocks)|;
    forall i, j | 0 <= i < j < |tail|
      ensures Less(tail[i].name, tail[j].name)
    {
      assert w[o + i] == tail[i] && w[o + j] == tail[j];
    }
  }

  /** The reference: scanning all entries in order. */
  function Linear(es: seq<Dirent>, name: bytes): (r: Option<Dirent>) {
    if es == [] then None else if es[0].name == name then Some(es[0]) else Linear(es[1..], name)
  }

  lemma {:induction false} LinearMiss(es: seq<Dirent>, name: bytes)
    requires forall k {:trigger es[k]} :: 0 <= k < |es| ==> es[k].name != name
    ensures Linear(es, name) == None
  {
    if es != [] { LinearMiss(es[1..], name); }
  }

  lemma {:induction false} LinearHit(es: seq<Dirent>, name: bytes, i: nat)
    requires Sorted(es) && i < |es| && es[i].name == name
    ensures Linear(es, name) == Some(es[i])
  {
    if i > 0 {
      LessIrreflexive(name);
      assert Sorted(es[1..]);
      LinearHit(es[1..], name, i - 1);
    }
  }

  /** The name is not among the first `n` entries. */
  ghost predicate Lower(es: seq<Dirent>, name: bytes, n: nat) {
    n <= |es| && forall k {:trigger es[k]} :: 0 <= k < n ==> Less(es[k].name, name)
  }

  ghost predicate Upper(es: seq<Dirent>, name: bytes, n: nat) {
    n <= |es| && forall k {:trigger es[k]} :: n <= k < |es| ==> Less(name, es[k].name)
  }

  /** What a miss in block `b` says about the whole directory. */
  lemma {:induction false} MissMeans(blocks: seq<seq<Dirent>>, tail: seq<Dirent>, name: bytes, b: nat, h: Hit)
    requires DirOk(blocks, tail) && b < |blocks| && Hits(blocks[b], name, h)
    ensures StartOf(blocks, b) <= StartOf(blocks, b + 1) <= |Whole(blocks, tail)|
    ensures h.After? ==> Lower(Whole(blocks, tail), name, StartOf(blocks, b + 1))
    ensures h.Before? ==> Upper(Whole(blocks, tail), name, StartOf(blocks, b))
    ensures h.Found? ==> Linear(Whole(blocks, tail), name) == Some(blocks[b][h.i])
    ensures h.Inside? ==> Linear(Whole(blocks, tail), name) == None
  {
    var w, o, n := Whole(blocks, tail), StartOf(blocks, b), |blocks[b]|;
    JoinSlice(blocks, tail, b);
    assert forall i {:trigger blocks[b][i]} :: 0 <= i < n ==> w[o..o + n][i] == w[o + i] == blocks[b][i];
    match h {
      case After => ExtendBelow(w, name, o + n - 1);
      case Before => ExtendAbove(w, name, o);
      case Found(i) => LinearHit(w, name, o + i);
      case Inside => InsideMiss(w, name, o, blocks[b]);
    }
  }

  lemma {:induction false} InsideMiss(w: seq<Dirent>, name: bytes, o: nat, es: seq<Dirent>)
    requires Sorted(w) && es != [] && o + |es| <= |w|
    requires (forall i {:trigger es[i]} :: 0 <= i < |es| ==> w[o + i] == es[i]) && Hits(es, name, Inside)
    ensures Linear(w, name) == None
  {
    assert w[o] == es[0] && w[o + |es| - 1] == es[|es| - 1];
    ExtendBelow(w, name, o);
    ExtendAbove(w, name, o + |es| - 1);
    LessIrreflexive(name);
    forall k | 0 <= k < |w|
      ensures w[k].name != name
    {
      if o <= k < o + |es| { assert w[k] == es[k - o]; }
    }
    LinearMiss(w, name);
  }

  lemma {:induction false} BetweenMiss(w: seq<Dirent>, name: bytes, n: nat)
    requires Lower(w, name, n) && Upper(w, name, n)
    ensures Linear(w, name) == None
  {
    NotThere(w, name, n);
    LinearMiss(w, name);
  }

  ghost predicate Ends(w: seq<Dirent>, o: nat, tail: seq<Dirent>) {
    o + |tail| == |w| && forall i {:trigger tail[i]} :: 0 <= i < |tail| ==> w[o + i] == tail[i]
  }

  lemma {:induction false} SuffixDecides(w: seq<Dirent>, o: nat, tail: seq<Dirent>, name: bytes, h: Hit)
    requires Sorted(w) && Ends(w, o, tail) && tail != [] && Lower(w, name, o) && Hits(tail, name, h)
    ensures Linear(w, name) == if h.Found? then Some(tail[h.i]) else None
  {
    assert w[o] == tail[0] && w[o + |tail| - 1] == tail[|tail| - 1];
    match h {
      case Found(i) => LinearHit(w, name, o + i);
      case After =>
        ExtendBelow(w, name, o + |tail| - 1);
        BetweenMiss(w, name, |w|);
      case Before =>
        ExtendAbove(w, name, o);
        BetweenMiss(w, name, o);
      case Inside => InsideMiss(w, name, o, tail);
    }
  }

  /** A name between two blocks is not in the tail either. */
  lemma {:induction false} SuffixMisses(w: seq<Dirent>, n: nat, o: nat, tail: seq<Dirent>, name: bytes, h: Hit)
    requires Sorted(w) && Ends(w, o, tail) && tail != [] && n <= o && Lower(w, name, n) && Upper(w, name, n)
    requires Hits(tail, name, h)
    ensures Linear(w, name) == None && !h.Found?
  {
    BetweenMiss(w, name, n);
    LessIrreflexive(name);
    assert forall i {:trigger tail[i]} :: 0 <= i < |tail| ==> Less(name, w[o + i].name);
  }

  // ---------- the search ----------

  ghost function FoundEntry(es: seq<Dirent>, h: Hit): Option<Dirent> {
    if h.Found? && h.i < |es| then Some(es[h.i]) else None
  }

  /** What the bounds of the search say. */
  ghost predicate Bounded(blocks: seq<seq<Dirent>>, tail: seq<Dirent>, name: bytes, start: int, end: int) {
    && 0 <= start <= end + 1 <= |blocks|
    && Lower(Whole(blocks, tail), name, StartOf(blocks, start))
    && (end + 1 < |blocks| ==> Upper(Whole(blocks, tail), name, StartOf(blocks, end + 1)))
  }

  lemma {:induction false} NotFirst(blocks: seq<seq<Dirent>>, tail: seq<Dirent>, name: bytes, h: Hit)
    requires DirOk(blocks, tail) && blocks != [] && !Less(name, blocks[0][0].name) && Hits(blocks[0], name, h)
    ensures !h.Before?
  {
  }

  lemma {:induction false} SearchEnds(blocks: seq<seq<Dirent>>, tail: seq<Dirent>, name: bytes, start: int, end: int,
                                    h: Hit)
    requires DirOk(blocks, tail) && Bounded(blocks, tail, name, start, end) && start > end
    requires tail != [] ==> Hits(tail, name, h)
    ensures Linear(Whole(blocks, tail), name) == if tail != [] then FoundEntry(tail, h) else None
  {
    var w, o := Whole(blocks, tail), |Join(blocks)|;
    assert Ends(w, o, tail);
    assert blocks[..|blocks|] == blocks;
    if end + 1 < |blocks| {
      JoinSlice(blocks, tail, start);
      if tail != [] { SuffixMisses(w, StartOf(blocks, start), o, tail, name, h); } else
        { BetweenMiss(w, name, StartOf(blocks, start)); }
    } else if tail != [] {
      SuffixDecides(w, o, tail, name, h);
    } else {
      BetweenMiss(w, name, o);
    }
  }

  /** The bounds of the block search, while it goes on. */
  datatype Search = Searching(start: int, end: int) | Ended

  ghost predicate InRange(blocks: seq<seq<Dirent>>, s: Search) {
    && (forall b {:trigger blocks[b]} :: 0 <= b < |blocks| ==> blocks[b] != [])
    && (s.Searching? ==> 0 <= s.start && s.end < |blocks|)
  }

  /** One turn of the loop over blocks, without any condition on the name. */
  ghost function Step(blocks: seq<seq<Dirent>>, name: bytes, s: Search): (s': Search)
    requires InRange(blocks, s)
    ensures InRange(blocks, s')
  {
    if s.Ended? || s.start > s.end then Ended else
    var mid := s.start + (s.end - s.start) / 2;
    match HitOf(blocks[mid], name)
    case Found(_) => Ended
    case Inside => Ended
    case After => Searching(mid + 1, s.end)
    case Before => if mid > 0 then Searching(s.start, mid - 1) else s
  }

  ghost function Run(blocks: seq<seq<Dirent>>, name: bytes, n: nat): (s: Search)
    requires InRange(blocks, Ended)
    ensures InRange(blocks, s)
  {
    if n == 0 then Searching(0, |blocks| - 1) else Step(blocks, name, Run(blocks, name, n - 1))
  }

  /** The search has come this far. */
  ghost predicate Ran(blocks: seq<seq<Dirent>>, name: bytes, s: Search) {
    InRange(blocks, Ended) && exists n: nat :: Run(blocks, name, n) == s
  }

  lemma {:induction false} RanNext(blocks: seq<seq<Dirent>>, name: bytes, start: int, end: int, mid: int, h: Hit)
    requires Ran(blocks, name, Searching(start, end)) && start <= end && 0 <= start && end < |blocks|
    requires mid == start + (end - start) / 2 && h == HitOf(blocks[mid], name) && (h.Before? ==> mid > 0)
    ensures h.Found? || h.Inside? ==> Ran(blocks, name, Ended)
    ensures h.After? ==> Ran(blocks, name, Searching(mid + 1, end))
    ensures h.Before? ==> Ran(blocks, name, Searching(start, mid - 1))
  {
    var n: nat :| Run(blocks, name, n) == Searching(start, end);
    assert Run(blocks, name, n + 1) == Step(blocks, name, Searching(start, end));
  }

  lemma {:induction false} RanOver(blocks: seq<seq<Dirent>>, name: bytes, start: int, end: int)
    requires Ran(blocks, name, Searching(start, end)) && start > end
    ensures Ran(blocks, name, Ended)
  {
    var n: nat :| Run(blocks, name, n) == Searching(start, end);
    assert Run(blocks, name, n + 1) == Ended;
  }

  lemma {:induction false} RanStart(blocks: seq<seq<Dirent>>, tail: seq<Dirent>, name: bytes)
    requires DirOk(blocks, tail)
    ensures Ran(blocks, name, Searching(0, |blocks| - 1)) && Bounded(blocks, tail, name, 0, |blocks| - 1)
  {
    assert Run(blocks, name, 0) == Searching(0, |blocks| - 1);
    assert blocks[..0] == [];
  }

  /** One look into a block narrows the bounds or decides. */
  method Turn(blocks: seq<seq<Dirent>>, tail: seq<Dirent>, name: bytes, start: int, end: int, mid: int) returns (h: Hit)
    requires DirOk(blocks, tail) && blocks != [] && !Less(name, blocks[0][0].name)
    requires Bounded(blocks, tail, name, start, end) && start <= mid <= end
    ensures h == HitOf(blocks[mid], name) && (h.Before? ==> mid > 0)
    ensures h.Found? ==> h.i < |blocks[mid]| && Linear(Whole(blocks, tail), name) == Some(blocks[mid][h.i])
    ensures h.Inside? ==> Linear(Whole(blocks, tail), name) == None
    ensures h.After? ==> Bounded(blocks, tail, name, mid + 1, end)
    ensures h.Before? ==> Bounded(blocks, tail, name, start, mid - 1)
  {
    BlockSorted(blocks, tail, mid);
    h := LookupBlock(blocks[mid], name);
    MissMeans(blocks, tail, name, mid, h);
    if mid == 0 { NotFirst(blocks, tail, name, h); }
  }

  /** A whiteout that was found is reported as missing. */
  function Reply(found: Option<Dirent>, whiteout: Dirent -> bool): Option<Dirent> {
    if found.Some? && whiteout(found.value) then None else found
  }

  lemma {:induction false} LinearMeans(es: seq<Dirent>, name: bytes)
    requires Sorted(es)
    ensures forall d {:trigger d in es} :: Linear(es, name) == Some(d) <==> d in es && d.name == name
  {
    if i :| 0 <= i < |es| && es[i].name == name {
      LinearHit(es, name, i);
      forall d | d in es && d.name == name
        ensures d == es[i]
      {
        var j :| 0 <= j < |es| && es[j] == d;
        LessIrreflexive(name);
      }
    } else {
      LinearMiss(es, name);
      assert forall d | d in es :: d.name != name;
    }
  }

  lemma {:induction false} InJoin(blocks: seq<seq<Dirent>>, d: Dirent)
    ensures d in Join(blocks) <==> exists b :: 0 <= b < |blocks| && d in blocks[b]
  {
    if blocks != [] {
      var n := |blocks| - 1;
      InJoin(blocks[..n], d);
      if d in Join(blocks[..n]) {
        var b :| 0 <= b < n && d in blocks[..n][b];
        assert d in blocks[b];
      }
      if b :| 0 <= b < |blocks| && d in blocks[b] {
        if b < n { assert d in blocks[..n][b]; }
      }
    }
  }

  /** The answer is the entry of that name in one of the blocks or the tail, unless it is a whiteout. */
  lemma {:induction false} ReplyMeans(blocks: seq<seq<Dirent>>, tail: seq<Dirent>, name: bytes,
                                      whiteout: Dirent -> bool)
    requires DirOk(blocks, tail)
    ensures forall d {:trigger whiteout(d)} :: Reply(Linear(Whole(blocks, tail), name), whiteout) == Some(d) <==>
              ((exists b :: 0 <= b < |blocks| && d in blocks[b]) || d in tail) && d.name == name && !whiteout(d)
  {
    var es := Whole(blocks, tail);
    LinearMeans(es, name);
    forall d: Dirent
      ensures d in es <==> (exists b :: 0 <= b < |blocks| && d in blocks[b]) || d in tail
      ensures Linear(es, name) == Some(d) <==> d in es && d.name == name
    {
      InJoin(blocks, d);
      assert d in es <==> d in Join(blocks) || d in tail;
      assert Linear(es, name) == Some(d) ==> d in es;
    }
  }

  /** The two-level search finds what a scan of all entries finds; it goes through the steps above. */
  method Lookup(blocks: seq<seq<Dirent>>, tail: seq<Dirent>, name: bytes, whiteout: Dirent -> bool)
    returns (r: Option<Dirent>)
    requires DirOk(blocks, tail) && (blocks != [] ==> !Less(name, blocks[0][0].name))
    ensures r == Reply(Linear(Whole(blocks, tail), name), whiteout) && Ran(blocks, name, Ended)
    ensures forall d {:trigger whiteout(d)} :: r == Some(d) <==>
              ((exists b :: 0 <= b < |blocks| && d in blocks[b]) || d in tail) && d.name == name && !whiteout(d)
  {
    ReplyMeans(blocks, tail, name, whiteout);
    var start, end := 0, |blocks| - 1;
    RanStart(blocks, tail, name);
    while start <= end
      invariant Bounded(blocks, tail, name, start, end) && Ran(blocks, name, Searching(start, end))
      decreases end - start
    {
      var mid := start + (end - start) / 2;
      var h := Turn(blocks, tail, name, start, end, mid);
      RanNext(blocks, name, start, end, mid, h);
      match h {
        case Found(i) => return Reply(Some(blocks[mid][i]), whiteout);
        case Inside => return None;
        case After => start := mid + 1;
        case Before => end := mid - 1;
      }
    }
    RanOver(blocks, name, start, end);
    r := SearchTail(blocks, tail, name, start, end);
    r := Reply(r, whiteout);
  }

  method SearchTail(blocks: seq<seq<Dirent>>, tail: seq<Dirent>, name: bytes, ghost start: int, ghost end: int)
    returns (r: Option<Dirent>)
    requires DirOk(blocks, tail) && Bounded(blocks, tail, name, start, end) && start > end
    ensures r == Linear(Whole(blocks, tail), name)
  {
    if tail == [] {
      SearchEnds(blocks, tail, name, start, end, Inside);
      return None;
    }
    TailSorted(blocks, tail);
    var h := LookupBlock(tail, name);
    SearchEnds(blocks, tail, name, start, end, h);
    return if h.Found? then Some(tail[h.i]) else None;
  }

  // ---------- termination ----------

  lemma {:induction false} AllBefore(blocks: seq<seq<Dirent>>, tail: seq<Dirent>, name: bytes, b: nat)
    requires DirOk(blocks, tail) && b < |blocks| && Less(name, blocks[0][0].name)
    ensures HitOf(blocks[b], name) == Before
  {
    var w, o := Whole(blocks, tail), StartOf(blocks, b);
    JoinSlice(blocks, tail, 0);
    assert blocks[..0] == [] && w[0..|blocks[0]|][0] == w[0];
    ExtendAbove(w, name, 0);
    JoinSlice(blocks, tail, b);
    LessIrreflexive(name);
    forall i | 0 <= i < |blocks[b]|
      ensures Less(name, blocks[b][i].name)
    {
      assert w[o..o + |blocks[b]|][i] == w[o + i];
    }
  }

  lemma {:induction false} StuckStep(blocks: seq<seq<Dirent>>, tail: seq<Dirent>, name: bytes, s: Search)
    requires DirOk(blocks, tail) && blocks != [] && Less(name, blocks[0][0].name)
    requires InRange(blocks, s) && s.Searching? && s.start == 0 <= s.end
    ensures var r := Step(blocks, name, s); r.Searching? && r.start == 0 <= r.end
  {
    AllBefore(blocks, tail, name, s.start + (s.end - s.start) / 2);
  }

  /** A name before all entries keeps the search at the first blocks for ever. */
  lemma {:induction false} Stuck(blocks: seq<seq<Dirent>>, tail: seq<Dirent>, name: bytes, n: nat)
    requires DirOk(blocks, tail) && blocks != [] && Less(name, blocks[0][0].name)
    ensures Run(blocks, name, n).Searching? && Run(blocks, name, n).start == 0 <= Run(blocks, name, n).end
  {
    if n > 0 {
      Stuck(blocks, tail, name, n - 1);
      StuckStep(blocks, tail, name, Run(blocks, name, n - 1));
    }
  }

  lemma {:induction false} Shrinks(blocks: seq<seq<Dirent>>, name: bytes, n: nat)
    requires InRange(blocks, Ended) && (blocks != [] ==> !Less(name, blocks[0][0].name))
    ensures Run(blocks, name, n).Searching? ==> Run(blocks, name, n).end - Run(blocks, name, n).start < |blocks| - n
  {
    if n > 0 {
      Shrinks(blocks, name, n - 1);
      var s := Run(blocks, name, n - 1);
      if s.Searching? && s.start <= s.end {
        var mid := s.start + (s.end - s.start) / 2;
        assert HitOf(blocks[mid], name).Before? ==> mid > 0;
      }
    }
  }

  /** The search comes to an end exactly for names that are not before the first entry of the first block. */
  lemma {:induction false} HaltsWhen(blocks: seq<seq<Dirent>>, tail: seq<Dirent>, name: bytes)
    requires DirOk(blocks, tail)
    ensures Ran(blocks, name, Ended) <==> blocks == [] || !Less(name, blocks[0][0].name)
  {
    if blocks != [] && Less(name, blocks[0][0].name) {
      forall n: nat
        ensures !Run(blocks, name, n).Ended?
      {
        Stuck(blocks, tail, name, n);
      }
    } else {
      var n := |blocks| + 1;
      Shrinks(blocks, name, n);
      assert Run(blocks, name, n + 1) == Step(blocks, name, Run(blocks, name, n));
      assert Run(blocks, name, n + 1).Ended?;
    }
  }

  // ---------- written directories ----------

  ghost function Chunks(ds: seq<Dirent>, c: seq<nat>, k: nat): (b: seq<seq<Dirent>>)
    requires k <= |c| && CutOk(Names(ds), c)
    ensures |b| == k
  {
    seq(k, j requires 0 <= j < k => Chunk(ds, c, j))
  }

  lemma {:induction false} ChunksJoin(ds: seq<Dirent>, c: seq<nat>, k: nat)
    requires k <= |c| && CutOk(Names(ds), c)
    ensures Upto(c, |ds|, k) <= |ds| && Join(Chunks(ds, c, k)) == ds[..Upto(c, |ds|, k)]
  {
    if k > 0 {
      ChunksJoin(ds, c, k - 1);
      ChunkJoins(ds, c, k - 1);
      assert Chunks(ds, c, k)[..k - 1] == Chunks(ds, c, k - 1);
    }
  }

  /** The blocks and the tail that the writer cuts a sorted directory into are searched as one directory. */
  lemma {:induction false} WrittenDirOk(ds: seq<Dirent>, c: seq<nat>, nb: nat)
    requires CutOk(Names(ds), c) && EntriesOk(ds) && ds != [] && |c| - 1 <= nb <= |c| && Sorted(ds)
    ensures var tail := if nb < |c| then Chunk(ds, c, nb) else [];
            Whole(Chunks(ds, c, nb), tail) == ds && DirOk(Chunks(ds, c, nb), tail)
  {
    ChunksJoin(ds, c, nb);
    forall b | 0 <= b < nb
      ensures Chunks(ds, c, nb)[b] != []
    {
      ChunkOk(ds, c, b);
    }
    if nb < |c| { ChunkJoins(ds, c, nb); }
  }

  /** In a written directory with a block of its own, a name before the first entry is looked for without end. */
  lemma {:induction false} LookupHangs(ds: seq<Dirent>, c: seq<nat>, nb: nat, name: bytes, n: nat)
    requires CutOk(Names(ds), c) && EntriesOk(ds) && ds != [] && |c| - 1 <= nb <= |c| && Sorted(ds)
    requires nb > 0 && Less(name, ds[0].name)
    ensures InRange(Chunks(ds, c, nb), Ended) && !Run(Chunks(ds, c, nb), name, n).Ended?
  {
    var blocks, tail := Chunks(ds, c, nb), if nb < |c| then Chunk(ds, c, nb) else [];
    WrittenDirOk(ds, c, nb);
    ChunkOk(ds, c, 0);
    JoinSlice(blocks, tail, 0);
    assert blocks[..0] == [] && ds[0..|blocks[0]|][0] == ds[0];
    Stuck(blocks, tail, name, n);
  }
}
