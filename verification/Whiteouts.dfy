/**
 The root of every written image.  Before the tree is listed the root gets a whiteout for each of the 256 two-digit
 names, so that no directory of a backing object store shines through; they also make its entries fill a block.
 */
module Whiteouts {
  import opened Common
  import opened Bytes
  import opened Children
  import opened Chunking
  import opened DirCodec
  import opened DirBlocks
  import opened Layout
  import opened ErofsNode
  import opened NodeReader
  import opened ErofsImage
  import opened NodeXattrs
  import Loader
  import S = Superblock

  function HexDigit(d: nat): byte
    requires d < 16
  {
    if d < 10 then 48 + d else 87 + d
  }

  /** The two hexadecimal digits of `i`. */
  function HexName(i: nat): (name: bytes)
    requires i < 256
    ensures |name| == 2
  {
    [HexDigit(i / 16), HexDigit(i % 16)]
  }

  lemma {:induction false} HexInjective(i: nat, j: nat)
    requires i < 256 && j < 256 && HexName(i) == HexName(j)
    ensures i == j
  {
    assert HexName(i)[0] == HexName(j)[0] && HexName(i)[1] == HexName(j)[1];
  }

  /** The list has the first `n` names. */
  ghost predicate HasHex(list: seq<Entry>, n: nat) {
    n <= 256 && forall i: nat {:trigger HexName(i)} :: i < n ==> Has(list, HexName(i))
  }

  lemma {:induction false} AddKeeps(list: seq<Entry>, e: Entry, list': seq<Entry>, name: bytes)
    requires AddedTo(list, e, list') && (Has(list, name) || name == e.name)
    ensures Has(list', name)
  {
    assert forall x {:trigger x in list'} :: x in multiset(list') ==> x in list';
    if Has(list, name) {
      var k :| 0 <= k < |list| && list[k].name == name;
      assert list[k] in multiset(list);
      assert list[k] in list';
    } else {
      assert e in multiset(list');
      assert e in list';
    }
  }

  // ---------- what that means for the image ----------

  /** Room that distinct names take in the entries of a directory. */
  lemma {:induction false} SpaceWithout(names: seq<bytes>, k: nat)
    requires k < |names|
    ensures Space(names) == Space(names[..k] + names[k + 1..]) + 12 + |names[k]|
  {
    assert names == names[..k] + [names[k]] + names[k + 1..];
    FlatJoin(names[..k] + [names[k]], names[k + 1..]);
    FlatAppend(names[..k], names[k]);
    FlatJoin(names[..k], names[k + 1..]);
  }

  lemma {:induction false} FlatJoin(a: seq<bytes>, b: seq<bytes>)
    ensures Flat(a + b) == Flat(a) + Flat(b)
  {
    FlatSplit(a + b, |a|);
    assert (a + b)[..|a|] == a && (a + b)[|a|..] == b;
  }

  lemma {:induction false} HexSpace(names: seq<bytes>, n: nat)
    requires n <= 256 && forall i: nat {:trigger HexName(i)} :: i < n ==> HexName(i) in names
    ensures Space(names) >= 14 * n
  {
    if n > 0 {
      var k :| 0 <= k < |names| && names[k] == HexName(n - 1);
      var rest := names[..k] + names[k + 1..];
      forall i: nat | i < n - 1
        ensures HexName(i) in rest
      {
        if HexName(i) == HexName(n - 1) { HexInjective(i, n - 1); }
        var j :| 0 <= j < |names| && names[j] == HexName(i);
        assert rest[if j < k then j else j - 1] == HexName(i);
      }
      HexSpace(rest, n - 1);
      SpaceWithout(names, k);
    }
  }

  /** A directory whose entries take more than half a block has a block of its own. */
  lemma {:induction false} LargeHasBlock(names: seq<bytes>)
    requires Space(names) > 2048
    ensures DirBlocks.DirBlocks(names) > 0
  {
    FirstStart(names);
    assert names[0..] == names;
  }

  lemma {:induction false} FirstStart(names: seq<bytes>)
    ensures Starts(names)[0] == 0
  {
    if names != [] { FirstStart(names[..|names| - 1]); }
  }

  /** The root of a plan is a directory with all the names. */
  ghost predicate WritersRoot(p: Plan) {
    && p.nodes != [] && p.nodes[0].body.Directory?
    && forall i: nat {:trigger HexName(i)} :: i < 256 ==> HexName(i) in ChildNames(p.nodes[0].body.children)
  }

  lemma {:induction false} RootHasBlock(p: Plan)
    requires Planned(p) && WritersRoot(p)
    ensures p.ps[0].nBlocks > 0
  {
    var names := ChildNames(p.nodes[0].body.children);
    HexSpace(names, 256);
    LargeHasBlock(names);
    assert NodePlanned(p, 0);
    assert LaidAt(AllSizes(p), p.ps, 0);
  }

  /** The loader takes every image the writer makes and finds the root and the shared attributes in it. */
  lemma {:induction false} WrittenLoads(p: Plan, flags: nat, version: nat)
    requires Planned(p) && WritersRoot(p) && ImageSize(p) < 0x1_0000_0000 && p.c.sec < TWO64 && p.c.nsec < 0x1_0000_0000
    requires flags < 0x1_0000_0000 && version < 0x1_0000_0000
    ensures AllWritten(p)
    ensures S.Load(ImageOf(p, S.PrefixBytes(Loader.SuperOf(p, flags, version))))
         == Ok(S.Loaded(0, TableBase(p.c.inodesEnd), p.c.sec, p.c.nsec, Slot(p.ps[0].pos)))
  {
    RootHasBlock(p);
    BlocksBound(p.ps, 0);
    Loader.LoadWritten(p, flags, version);
  }
}
