/** Which attributes survive writing and reading an inode. */
module XattrExact {
  import opened Common
  import opened Xattrs
  import opened SharedXattrs
  import opened NodeXattrs

  function FetchAll(es: seq<Stored>): (xs: seq<Xattr>)
    ensures |xs| == |es|
  {
    seq(|es|, i requires 0 <= i < |es| => Fetch(es[i]))
  }

  lemma {:induction false} FetchStored(xs: seq<Xattr>)
    ensures FetchAll(StoredAll(xs, Store)) == xs
  {
    forall i | 0 <= i < |xs|
      ensures Fetch(StoredAll(xs, Store)[i]) == xs[i]
    {
      FetchStore(xs[i]);
    }
  }

  lemma {:induction false} FetchJoin(a: seq<Stored>, b: seq<Stored>)
    ensures FetchAll(a + b) == FetchAll(a) + FetchAll(b)
  {
  }

  /** What the reader hands to the node: unshared attributes but for a bare last one, then shared ones. */
  ghost function ReadBack(xs: seq<Xattr>, slots: seq<Option<nat>>): seq<Xattr>
    requires |slots| == |xs|
  {
    FetchAll(Visible(StoredAll(Unshared(xs, slots), Store)) + StoredAll(Shared(xs, slots), Store))
  }

  /** The last attribute kept with the inode has nothing but a well-known name. */
  ghost predicate EndsBare(xs: seq<Xattr>, slots: seq<Option<nat>>)
    requires |slots| == |xs|
  {
    var us := Unshared(xs, slots);
    us != [] && Bare(Store(us[|us| - 1]))
  }

  lemma {:induction false} FetchFront(us: seq<Xattr>, n: nat)
    requires n <= |us|
    ensures FetchAll(StoredAll(us, Store)[..n]) == us[..n]
  {
    assert StoredAll(us, Store)[..n] == StoredAll(us[..n], Store);
    FetchStored(us[..n]);
  }

  lemma {:induction false} ReadBackIs(xs: seq<Xattr>, slots: seq<Option<nat>>)
    requires |slots| == |xs|
    ensures var us := Unshared(xs, slots);
            ReadBack(xs, slots) == (if EndsBare(xs, slots) then us[..|us| - 1] else us) + Shared(xs, slots)
  {
    var us, sh := Unshared(xs, slots), Shared(xs, slots);
    var es := StoredAll(us, Store);
    FetchJoin(Visible(es), StoredAll(sh, Store));
    FetchStored(sh);
    FetchStored(us);
    if us != [] { FetchFront(us, |us| - 1); }
  }

  lemma {:induction false} OneShort(us: seq<Xattr>, sh: seq<Xattr>, xs: seq<Xattr>)
    requires multiset(sh) + multiset(us) == multiset(xs)
    ensures multiset(us + sh) == multiset(xs)
    ensures us != [] ==> multiset(us[..|us| - 1] + sh) != multiset(xs)
  {
    assert multiset(us + sh) == multiset(us) + multiset(sh);
    assert |multiset(xs)| == |sh| + |us|;
    if us != [] {
      assert |multiset(us[..|us| - 1] + sh)| == |us| - 1 + |sh|;
    }
  }

  /** The attributes read are those of the node, exactly when none of them is passed over for being bare. */
  lemma {:induction false} AttributesExact(xs: seq<Xattr>, slots: seq<Option<nat>>)
    requires |slots| == |xs|
    ensures multiset(ReadBack(xs, slots)) == multiset(xs) <==> !EndsBare(xs, slots)
  {
    ReadBackIs(xs, slots);
    KindsPartition(xs, slots);
    OneShort(Unshared(xs, slots), Shared(xs, slots), xs);
  }

  /** An access control list with no entries is such an attribute. */
  lemma {:induction false} EmptyAclLost()
    ensures var x := Xattr(Ascii("system.posix_acl_access"), []); ReadBack([x], [None]) == []
  {
    var key := Ascii("system.posix_acl_access");
    var x := Xattr(key, []);
    assert key[0] != Ascii("user.")[0];
    assert PrefixName(2) == key;
    assert Store(x) == Stored(2, [], []);
    var slots: seq<Option<nat>> := [None];
    assert slots[..0] == [] && [x][..0] == [];
    assert Unshared([x], slots) == [] + [x] && Shared([x], slots) == [];
    ReadBackIs([x], slots);
  }
}
